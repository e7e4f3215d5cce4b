/** Tile pruning over the zoom pyramid: which tiles survive while their replacements are not on screen yet. */
module TilePruning {

  /** Tile coordinates; they may be negative. */
  datatype Coords = Coords(x: int, y: int, z: int)

  // The pyramid. Halving rounds down, as `Math.floor` does, so that it undoes doubling for negative coordinates too.

  function Parent(c: Coords): Coords {
    Coords(c.x / 2, c.y / 2, c.z - 1)
  }

  function Ancestor(c: Coords, n: nat): (a: Coords)
    ensures a.z == c.z - n
    decreases n
  {
    if n == 0 then c else Ancestor(Parent(c), n - 1)
  }

  function Pow2(n: nat): (p: nat)
    ensures p > 0
  {
    if n == 0 then 1 else 2 * Pow2(n - 1)
  }

  /** An ancestor `n` levels up is the tile that covers the square of this one, where a tile is `2^n` times as wide. */
  lemma {:induction false} AncestorCovers(c: Coords, a: Coords, n: nat)
    ensures a == Ancestor(c, n) <==>
              && a.z == c.z - n
              && a.x * Pow2(n) <= c.x < (a.x + 1) * Pow2(n) && a.y * Pow2(n) <= c.y < (a.y + 1) * Pow2(n)
    decreases n
  {
    if n > 0 {
      AncestorCovers(Parent(c), a, n - 1);
      CoversHalf(a.x, c.x, Pow2(n - 1), Pow2(n));
      CoversHalf(a.y, c.y, Pow2(n - 1), Pow2(n));
    } else {
      assert Pow2(0) == 1;
    }
  }

  lemma CoversHalf(a: int, v: int, half: nat, width: nat)
    requires half > 0 && width == 2 * half
    ensures a * half <= v / 2 < (a + 1) * half <==> a * width <= v < (a + 1) * width
  {
    var low, high := a * half, (a + 1) * half;
    assert a * width == 2 * low && (a + 1) * width == 2 * high;
  }

  predicate IsChild(d: Coords, c: Coords) {
    2 * c.x <= d.x < 2 * c.x + 2 && 2 * c.y <= d.y < 2 * c.y + 2 && d.z == c.z + 1
  }

  lemma ChildHasParent(d: Coords, c: Coords)
    ensures IsChild(d, c) <==> Parent(d) == c
  {
  }

  class Tile {
    const coords: Coords
    var current: bool
    var active: bool
    var loaded: bool
    var retain: bool

    constructor (coords: Coords, current: bool, active: bool, loaded: bool)
      ensures this.coords == coords && this.current == current && this.active == active && this.loaded == loaded
    {
      this.coords, this.current, this.active, this.loaded, this.retain := coords, current, active, loaded, false;
    }
  }

  /** What pruning reads of a tile. */
  datatype Status = Status(current: bool, active: bool, loaded: bool)

  type Grid = map<Coords, Status>

  predicate IsActive(g: Grid, c: Coords) {
    c in g && g[c].active
  }

  predicate IsShown(g: Grid, c: Coords) {
    c in g && (g[c].active || g[c].loaded)
  }

  /** A current tile that is not on screen yet, and needs something drawn in its place. */
  predicate Needs(g: Grid, d: Coords) {
    d in g && g[d].current && !g[d].active
  }

  /** One of the ancestors 1 to `n` is active. */
  predicate ActiveWithin(g: Grid, d: Coords, n: nat) {
    exists k | 1 <= k <= n :: IsActive(g, Ancestor(d, k))
  }

  /** `c` is an ancestor of `d`, at most `levels` up, drawn in its place: shown, with no active ancestor nearer. */
  predicate StandsInAbove(g: Grid, c: Coords, d: Coords, levels: nat) {
    exists k | 1 <= k <= levels :: c == Ancestor(d, k) && IsShown(g, c) && !ActiveWithin(g, d, k - 1)
  }

  /** `c` is a descendant of `d`, at most `levels` down, drawn in its place: shown, with no active tile between. */
  predicate StandsInBelow(g: Grid, c: Coords, d: Coords, levels: nat) {
    exists k | 1 <= k <= levels :: d == Ancestor(c, k) && IsShown(g, c) && !ActiveWithin(g, c, k - 1)
  }

  const LEVELS_UP: nat := 5
  const LEVELS_DOWN: nat := 2

  /** What must survive: the current tiles, and what stands in for the current tiles that are not on screen:
      tiles above, or when none of those is active, tiles below as well. */
  predicate Survives(g: Grid, c: Coords) {
    c in g && (g[c].current || exists d | d in g && Needs(g, d) :: StandsIn(g, c, d))
  }

  predicate StandsIn(g: Grid, c: Coords, d: Coords) {
    StandsInAbove(g, c, d, LEVELS_UP) || (!ActiveWithin(g, d, LEVELS_UP) && StandsInBelow(g, c, d, LEVELS_DOWN))
  }

  /** The nearest active ancestor of a tile that needs something in its place survives. */
  lemma NearestActiveAncestorSurvives(g: Grid, d: Coords, k: nat)
    requires Needs(g, d) && 1 <= k <= LEVELS_UP && IsActive(g, Ancestor(d, k)) && !ActiveWithin(g, d, k - 1)
    ensures Survives(g, Ancestor(d, k))
  {
    assert StandsInAbove(g, Ancestor(d, k), d, LEVELS_UP);
    assert StandsIn(g, Ancestor(d, k), d);
  }

  /** A loaded or active ancestor up to five levels up survives, as long as no active one is nearer. */
  lemma ShownAncestorSurvives(g: Grid, d: Coords, k: nat)
    requires d in g && g[d].current && !g[d].active
    requires 1 <= k <= 5 && Ancestor(d, k) in g && (g[Ancestor(d, k)].active || g[Ancestor(d, k)].loaded)
    requires forall j: nat | 1 <= j < k && Ancestor(d, j) in g :: !g[Ancestor(d, j)].active
    ensures Survives(g, Ancestor(d, k))
  {
    assert StandsInAbove(g, Ancestor(d, k), d, LEVELS_UP) by {
      assert !ActiveWithin(g, d, k - 1);
    }
    assert Needs(g, d) && StandsIn(g, Ancestor(d, k), d);
  }

  /**
   * Where no ancestor up to five levels up is active, a loaded or active descendant one or two levels
   * down survives, as long as no active tile is between.
   */
  lemma ShownDescendantSurvives(g: Grid, d: Coords, c: Coords, k: nat)
    requires d in g && g[d].current && !g[d].active
    requires forall j: nat | 1 <= j <= 5 && Ancestor(d, j) in g :: !g[Ancestor(d, j)].active
    requires 1 <= k <= 2 && Ancestor(c, k) == d && c in g && (g[c].active || g[c].loaded)
    requires forall j: nat | 1 <= j < k && Ancestor(c, j) in g :: !g[Ancestor(c, j)].active
    ensures Survives(g, c)
  {
    assert !ActiveWithin(g, d, LEVELS_UP);
    assert StandsInBelow(g, c, d, LEVELS_DOWN) by {
      assert !ActiveWithin(g, c, k - 1);
    }
    assert Needs(g, d) && StandsIn(g, c, d);
  }

  /**
   * Nothing else survives: a surviving tile that is not current is loaded or active, and stands in for
   * a current tile that is not on screen, from above or, where no ancestor of that is active, from below.
   */
  lemma SurvivorsStandIn(g: Grid, c: Coords) returns (d: Coords, k: nat)
    requires Survives(g, c) && !g[c].current
    ensures c in g && (g[c].active || g[c].loaded) && d in g && g[d].current && !g[d].active
    ensures || (1 <= k <= 5 && c == Ancestor(d, k)
                && forall j: nat | 1 <= j < k && Ancestor(d, j) in g :: !g[Ancestor(d, j)].active)
            || (1 <= k <= 2 && d == Ancestor(c, k)
                && (forall j: nat | 1 <= j <= 5 && Ancestor(d, j) in g :: !g[Ancestor(d, j)].active)
                && forall j: nat | 1 <= j < k && Ancestor(c, j) in g :: !g[Ancestor(c, j)].active)
  {
    d :| d in g && Needs(g, d) && StandsIn(g, c, d);
    if StandsInAbove(g, c, d, LEVELS_UP) {
      k :| 1 <= k <= LEVELS_UP && c == Ancestor(d, k) && IsShown(g, c) && !ActiveWithin(g, d, k - 1);
    } else {
      k :| 1 <= k <= LEVELS_DOWN && d == Ancestor(c, k) && IsShown(g, c) && !ActiveWithin(g, c, k - 1);
    }
  }

  // Both searches, one level at a time.

  lemma {:induction false} AncestorStep(c: Coords, n: nat)
    requires n > 0
    ensures Ancestor(c, n) == Parent(Ancestor(c, n - 1))
    decreases n
  {
    if n > 1 {
      AncestorStep(Parent(c), n - 1);
    }
  }

  lemma ActiveFromBelow(g: Grid, d: Coords, n: nat)
    requires n > 0
    ensures ActiveWithin(g, d, n) <==> IsActive(g, Parent(d)) || ActiveWithin(g, Parent(d), n - 1)
  {
    assert Ancestor(d, 1) == Parent(d);
    if ActiveWithin(g, Parent(d), n - 1) {
      var k :| 1 <= k <= n - 1 && IsActive(g, Ancestor(Parent(d), k));
      assert Ancestor(d, k + 1) == Ancestor(Parent(d), k);
    }
    if ActiveWithin(g, d, n) {
      var k :| 1 <= k <= n && IsActive(g, Ancestor(d, k));
      assert Ancestor(d, k) == Ancestor(Parent(d), k - 1);
    }
  }

  lemma ActiveFromAbove(g: Grid, d: Coords, n: nat)
    requires n > 0
    ensures ActiveWithin(g, d, n) <==> ActiveWithin(g, d, n - 1) || IsActive(g, Ancestor(d, n))
  {
  }

  lemma AboveStep(g: Grid, a: Coords, d: Coords, n: nat)
    requires n > 0
    ensures StandsInAbove(g, a, d, n) <==>
              (a == Parent(d) && IsShown(g, a)) || (!IsActive(g, Parent(d)) && StandsInAbove(g, a, Parent(d), n - 1))
  {
    var p := Parent(d);
    if StandsInAbove(g, a, d, n) {
      var k :| 1 <= k <= n && a == Ancestor(d, k) && IsShown(g, a) && !ActiveWithin(g, d, k - 1);
      assert Ancestor(d, k) == Ancestor(p, k - 1);
      if k > 1 {
        ActiveFromBelow(g, d, k - 1);
        assert !ActiveWithin(g, p, k - 1 - 1);
      }
    }
    if a == p && IsShown(g, a) {
      assert a == Ancestor(d, 1) && !ActiveWithin(g, d, 0);
    } else if !IsActive(g, p) && StandsInAbove(g, a, p, n - 1) {
      var k :| 1 <= k <= n - 1 && a == Ancestor(p, k) && IsShown(g, a) && !ActiveWithin(g, p, k - 1);
      assert a == Ancestor(d, k + 1);
      ActiveFromBelow(g, d, k);
      assert !ActiveWithin(g, d, k + 1 - 1);
    }
  }

  lemma NothingAbove(g: Grid, d: Coords)
    ensures !ActiveWithin(g, d, 0) && forall a :: !StandsInAbove(g, a, d, 0)
  {
  }

  /** The part of what stands in below `d` that the child `ch` accounts for. */
  predicate ByChild(g: Grid, a: Coords, ch: Coords, n: nat) {
    (a == ch && IsShown(g, a)) || (!IsActive(g, ch) && n > 1 && StandsInBelow(g, a, ch, n - 1))
  }

  lemma BelowStep(g: Grid, a: Coords, d: Coords, n: nat)
    requires n > 0
    ensures StandsInBelow(g, a, d, n) <==> exists ch :: IsChild(ch, d) && ByChild(g, a, ch, n)
  {
    if StandsInBelow(g, a, d, n) {
      var k :| 1 <= k <= n && d == Ancestor(a, k) && IsShown(g, a) && !ActiveWithin(g, a, k - 1);
      var ch := Ancestor(a, k - 1);
      AncestorStep(a, k);
      ChildHasParent(ch, d);
      if k > 1 {
        ActiveFromAbove(g, a, k - 1);
        assert ch == Ancestor(a, k - 1) && !ActiveWithin(g, a, k - 1 - 1);
      }
      assert IsChild(ch, d) && ByChild(g, a, ch, n);
    }
    if ch :| IsChild(ch, d) && ByChild(g, a, ch, n) {
      ChildHasParent(ch, d);
      if a == ch && IsShown(g, a) {
        assert d == Ancestor(a, 1) && !ActiveWithin(g, a, 0);
      } else {
        var k :| 1 <= k <= n - 1 && ch == Ancestor(a, k) && IsShown(g, a) && !ActiveWithin(g, a, k - 1);
        AncestorStep(a, k + 1);
        ActiveFromAbove(g, a, k);
        assert d == Ancestor(a, k + 1) && !ActiveWithin(g, a, k + 1 - 1);
      }
    }
  }

  /** What stands in below `c` by the children that the loops visit before the child at column `o` and row `s`. */
  ghost predicate Found(g: Grid, a: Coords, c: Coords, n: nat, o: int, s: int) {
    exists ch :: IsChild(ch, c) && (ch.x < o || (ch.x == o && ch.y < s)) && ByChild(g, a, ch, n)
  }

  lemma FoundEnds(g: Grid, c: Coords, n: nat)
    requires n > 0
    ensures forall a :: !Found(g, a, c, n, 2 * c.x, 2 * c.y)
    ensures forall a :: Found(g, a, c, n, 2 * c.x + 2, 2 * c.y) <==> StandsInBelow(g, a, c, n)
  {
    hide StandsInBelow, ByChild;
    forall a
      ensures Found(g, a, c, n, 2 * c.x + 2, 2 * c.y) <==> StandsInBelow(g, a, c, n)
    {
      BelowStep(g, a, c, n);
    }
  }

  lemma FoundStep(g: Grid, c: Coords, n: nat, o: int, s: int, next: int)
    requires 2 * c.x <= o < 2 * c.x + 2 && 2 * c.y <= s < 2 * c.y + 2 && next == s + 1
    ensures forall a :: Found(g, a, c, n, o, next) <==> Found(g, a, c, n, o, s) || ByChild(g, a, Coords(o, s, c.z + 1), n)
  {
    hide ByChild;
    var last := Coords(o, s, c.z + 1);
    assert IsChild(last, c);
    forall a
      ensures Found(g, a, c, n, o, next) <==> Found(g, a, c, n, o, s) || ByChild(g, a, last, n)
    {
      if Found(g, a, c, n, o, next) && !ByChild(g, a, last, n) {
        var ch :| IsChild(ch, c) && (ch.x < o || (ch.x == o && ch.y < next)) && ByChild(g, a, ch, n);
        assert ch != last;
      }
    }
  }

  lemma FoundRow(g: Grid, c: Coords, n: nat, o: int, next: int, first: int, end: int)
    requires next == o + 1 && first == 2 * c.y && end == 2 * c.y + 2
    ensures forall a :: Found(g, a, c, n, o, end) <==> Found(g, a, c, n, next, first)
  {
    hide ByChild;
  }

  /** Survival, when only the tiles in `done` are asked whether they need something in their place. */
  predicate Held(g: Grid, c: Coords, done: set<Coords>) {
    c in g && (g[c].current || exists d | d in done && d in g && Needs(g, d) :: StandsIn(g, c, d))
  }

  lemma HeldEnds(g: Grid)
    ensures forall c | c in g :: Held(g, c, {}) == g[c].current
    ensures forall c :: Held(g, c, g.Keys) == Survives(g, c)
  {
    hide StandsIn, Needs;
  }

  lemma HeldStep(g: Grid, done: set<Coords>, d: Coords)
    requires d in g
    ensures forall c | c in g :: Held(g, c, done + {d}) <==> Held(g, c, done) || (Needs(g, d) && StandsIn(g, c, d))
  {
    hide StandsIn, Needs;
  }

  class GridLayer {
    var tiles: map<Coords, Tile>

    ghost function Objects(): set<Tile>
      reads this
    {
      set c | c in tiles :: tiles[c]
    }

    ghost predicate Valid()
      reads this
    {
      forall c | c in tiles :: tiles[c].coords == c
    }

    ghost function Look(): Grid
      reads this, Objects()`current, Objects()`active, Objects()`loaded
    {
      map c | c in tiles :: Status(tiles[c].current, tiles[c].active, tiles[c].loaded)
    }

    constructor ()
      ensures Valid() && tiles == map[]
    {
      tiles := map[];
    }

    /** Retains what stands in above `c`, down to the level `minZoom`; says whether it ends in an active tile. */
    method RetainParent(c: Coords, minZoom: int) returns (found: bool)
      requires Valid() && minZoom < c.z
      modifies Objects()`retain
      ensures found <==> ActiveWithin(Look(), c, c.z - minZoom)
      ensures forall a | a in tiles :: tiles[a].retain == (old(tiles[a].retain) || StandsInAbove(Look(), a, c, c.z - minZoom))
      decreases c.z - minZoom
    {
      hide StandsInAbove, ActiveWithin, Ancestor;
      ghost var g, n := Look(), c.z - minZoom;
      var p := Parent(c);
      NothingAbove(g, p);
      ActiveFromBelow(g, c, n);
      forall a
        ensures StandsInAbove(g, a, c, n) <==>
                  (a == p && IsShown(g, a)) || (!IsActive(g, p) && StandsInAbove(g, a, p, n - 1))
      {
        AboveStep(g, a, c, n);
      }
      if p in tiles && tiles[p].active {
        tiles[p].retain := true;
        assert forall a | a in tiles && a != p :: tiles[a] != tiles[p];
        return true;
      }
      if p in tiles && tiles[p].loaded {
        tiles[p].retain := true;
      }
      if minZoom < p.z {
        found := RetainParent(p, minZoom);
      } else {
        found := false;
      }
    }

    /** Retains what stands in below `c`, up to the level `maxZoom`. */
    method RetainChildren(c: Coords, maxZoom: int)
      requires Valid() && c.z < maxZoom
      modifies Objects()`retain
      ensures forall a | a in tiles :: tiles[a].retain == (old(tiles[a].retain) || StandsInBelow(Look(), a, c, maxZoom - c.z))
      decreases maxZoom - c.z
    {
      hide StandsInBelow, ByChild, Found;
      ghost var g, n := Look(), maxZoom - c.z;
      FoundEnds(g, c, n);
      var o := 2 * c.x;
      while o < 2 * c.x + 2
        invariant 2 * c.x <= o <= 2 * c.x + 2
        invariant forall a | a in tiles :: tiles[a].retain == (old(tiles[a].retain) || Found(g, a, c, n, o, 2 * c.y))
      {
        var s := 2 * c.y;
        while s < 2 * c.y + 2
          invariant 2 * c.y <= s <= 2 * c.y + 2
          invariant forall a | a in tiles :: tiles[a].retain == (old(tiles[a].retain) || Found(g, a, c, n, o, s))
        {
          FoundStep(g, c, n, o, s, s + 1);
          RetainChild(Coords(o, s, c.z + 1), maxZoom);
          s := s + 1;
        }
        FoundRow(g, c, n, o, o + 1, 2 * c.y, 2 * c.y + 2);
        o := o + 1;
      }
    }

    /** The body of the loops: one child of a tile at the level above. */
    method RetainChild(ch: Coords, maxZoom: int)
      requires Valid() && ch.z <= maxZoom
      modifies Objects()`retain
      ensures forall a | a in tiles :: tiles[a].retain == (old(tiles[a].retain) || ByChild(Look(), a, ch, maxZoom - ch.z + 1))
      decreases maxZoom - ch.z + 1, 0
    {
      assert forall a | a in tiles && a != ch && ch in tiles :: tiles[a] != tiles[ch];
      if ch in tiles && tiles[ch].active {
        tiles[ch].retain := true;
      } else {
        if ch in tiles && tiles[ch].loaded {
          tiles[ch].retain := true;
        }
        if ch.z < maxZoom {
          RetainChildren(ch, maxZoom);
        }
      }
    }

    method PruneTiles(zoom: int, minZoom: int, maxZoom: int)
      requires Valid()
      modifies this, Objects()`retain
      ensures Valid()
      ensures zoom > maxZoom || zoom < minZoom ==> tiles == map[]
      ensures minZoom <= zoom <= maxZoom ==>
                && tiles == (map c | c in old(tiles) && Survives(old(Look()), c) :: old(tiles)[c])
                && forall c | c in old(tiles) && old(tiles[c].current) :: c in tiles
    {
      hide Survives, Look;
      ghost var before, g := tiles, Look();
      CurrentSurvive();
      if zoom > maxZoom || zoom < minZoom {
        tiles := map[];
      } else {
        RetainCurrent();
        assert Look() == g;
        RetainStandIns();
        assert tiles == before && forall c | c in before :: before[c].retain == Survives(g, c);
        RemoveOthers();
      }
    }

    /** First loop: the current tiles. */
    method RetainCurrent()
      requires Valid()
      modifies Objects()`retain
      ensures forall c | c in tiles :: tiles[c].retain == tiles[c].current
    {
      var keys := tiles.Keys;
      while keys != {}
        invariant keys <= tiles.Keys
        invariant forall c | c in tiles && c !in keys :: tiles[c].retain == tiles[c].current
        decreases keys
      {
        var c :| c in keys;
        assert forall a | a in tiles && a != c :: tiles[a] != tiles[c];
        tiles[c].retain := tiles[c].current;
        keys := keys - {c};
      }
    }

    lemma CurrentSurvive()
      ensures forall c | c in tiles && tiles[c].current :: Survives(Look(), c)
    {
    }

    lemma LookedAt()
      ensures Look().Keys == tiles.Keys && forall c | c in tiles :: Look()[c].current == tiles[c].current
    {
    }

    /** Second loop: what stands in for the current tiles that are not on screen. */
    method RetainStandIns()
      requires Valid() && forall c | c in tiles :: tiles[c].retain == tiles[c].current
      modifies Objects()`retain
      ensures forall c | c in tiles :: tiles[c].retain == Survives(Look(), c)
    {
      hide Held, StandsIn, Needs, Survives, Look;
      ghost var g := Look();
      LookedAt();
      HeldEnds(g);
      var keys := tiles.Keys;
      ghost var done := {};
      while keys != {}
        invariant keys <= tiles.Keys && done == g.Keys - keys && Look() == g
        invariant forall c | c in tiles :: tiles[c].retain == Held(g, c, done)
        decreases keys
      {
        var d :| d in keys;
        HeldStep(g, done, d);
        RetainFor(d);
        keys, done := keys - {d}, done + {d};
      }
      assert done == g.Keys;
    }

    /** Retains what stands in for one tile, if it needs it: from above, or when that ends in no active tile, from below as well. */
    method RetainFor(d: Coords)
      requires Valid() && d in tiles
      modifies Objects()`retain
      ensures forall a | a in tiles :: tiles[a].retain == (old(tiles[a].retain) || (Needs(Look(), d) && StandsIn(Look(), a, d)))
    {
      hide StandsInAbove, StandsInBelow, ActiveWithin;
      if tiles[d].current && !tiles[d].active {
        var found := RetainParent(d, d.z - LEVELS_UP);
        if !found {
          RetainChildren(d, d.z + LEVELS_DOWN);
        }
      }
    }

    /** Third loop: the tiles that are not retained go. */
    method RemoveOthers()
      requires Valid()
      modifies this
      ensures tiles == map c | c in old(tiles) && old(tiles)[c].retain :: old(tiles)[c]
    {
      ghost var before := tiles;
      var keys := tiles.Keys;
      while keys != {}
        invariant keys <= tiles.Keys <= before.Keys
        invariant forall c | c in tiles :: tiles[c] == before[c]
        invariant forall c | c in before :: c in tiles <==> c in keys || before[c].retain
        invariant forall c | c in before :: before[c].retain == old(before[c].retain)
        decreases keys
      {
        var c :| c in keys;
        if !tiles[c].retain {
          tiles := tiles - {c};
        }
        keys := keys - {c};
      }
    }
  }
}
