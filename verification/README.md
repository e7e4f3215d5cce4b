# Verified models of the proxy's hard parts

This project models, in Dafny, the parts of the proxy repository whose behaviour is easiest to get
wrong, and proves what they are for. Run `dafny verify dfyconfig.toml` here to check all of it.

| files | what they model |
|---|---|
| `Geometry`, `SegmentClip`, `PolygonClip`, `Simplify` | Leaflet's clipping of lines and polygons and its line simplification, over exact reals |
| `DrawOrder` | the canvas's draw list, a doubly linked list on the heap |
| `EventTypes`, `Events`, `Evented`, `OnceListeners` | event listeners under re-entrant actions: a machine over histories, the object that implements it, and the law of `once` |
| `TilePruning` | which map tiles survive pruning |
| `ProfilePool` | the client's bounded pool of profiles, as interleaved critical sections |
| `ErrorCounters` | the saturating counters behind route fail-over |
| `Base64`, `ConfigBase64` | RFC 4648 Base64, and the configuration page's own codec |
| `Decimal`, `Texts`, `Connections`, `Socks5` | SOCKS5 framing, over a connection whose bytes arrive in any pieces |
| `DnsCarrier`, `DnsCache` | DNS messages inside SOCKS frames; the cache and the reverse index |
| `TunnelRegistry` | the server's tunnels and its choice of the next protocol |
| `SsUri` | the parser of ss:// addresses |
| `Options`, `Sequences` | missing values, subsequences, concatenated blocks |

Code that changes things step by step is a method or a class here, with loops and arrays as in the
source; its contract ties it to a function or to a relation on the old state, and the lemmas speak of
that. A connection, a clock, a random number or a fresh identifier is a parameter.

## What the proofs found

- The profile pool checks its capacity and raises its count in two critical sections. The push under
  the lock can then block for ever, with every other caller behind it, exactly when the pool is
  neither full nor has room for all callers (`ProfilePool.PoolIsSafeExactlyWhen`).
- An `off` without arguments silences nothing. A `once` listener that it takes off is still called by
  every running fire that has yet to reach it, so more than once exactly when there are at least two
  (`OnceListeners.CalledTwiceExactlyWhen`). With at most one fire running, `once` means once for
  types of a single word; for a key of several words it never does (`Events.SeveralWordsAreNeverOnce`).
- The turn of such a listener takes off whatever is then registered with its function and context
  (`Events.TurnTakesOffExactlyWhen`), a listener that nobody took off included
  (`Events.StaleTurnTakesOffAnother`).
- Reporting a proxy takes its count off the client's total, which successes of other proxies may have
  lowered before: the total can fall below zero, exactly when a report takes off more than there is
  (`ErrorCounters.WorstSuffixExactlyWhen`, `ErrorCounters.ReportingOverdraws`).
- Clipping lines with rounding ends for every segment exactly when rounding pushes no side of the box
  outward (`SegmentClip.RoundedClipEndsExactlyWhen`), as for a renderer's whole-pixel bounds.
- Polygons are clipped against bounds widened by their stroke weight. Their results are all inside
  exactly when the fraction of the weight is below one half
  (`PolygonClip.PolygonsStayInsideExactlyWhen`).
- The client's SOCKS parser panics on names above 250 bytes, as it computes the end of the name in a
  byte, and its `host` depends on how the request arrives.
- The relay is not transparent for IPv6: the client sends 22 bytes and the server takes 26.
- Reading the local rules again forgets the plain names of the old ones, but none of their patterns
  (`DnsCache.MatchedForGood`).
- With rounding, parts of a polygon's outline inside whole-pixel bounds move off the outline of the
  result, except in bounds of a single pixel (`PolygonClip.OutlineIsKeptExactlyWhen`).
- A DNS message above 186 bytes is never delivered intact, and none up to that size is lost.
- The page's Base64 changes exactly the texts with the letters "rn", as its pattern has no backslashes.
- Trimming an ss:// address by character set is harmless except for first bytes B0-B3 and FC-FF.

## Model

| member | source | states |
|---|---|---|
| `Geometry.BitCodeMeansBeyond` | Resources/web/static/js/leaflet.js:2690-2695 | an outcode has a side's bit exactly when the point is strictly beyond that side, and is 0 exactly inside the bounds |
| `SegmentClip.ClipIsExact` | Resources/web/static/js/leaflet.js:2668-2689 | for every segment: refused only if no point of it is in the box; otherwise the result is, in the segment's direction, exactly the parameters whose points are in the box |
| `SegmentClip.CutCrosses` | Resources/web/static/js/leaflet.js:2674-2689 | whenever an edge is cut, exactly one end is beyond the cut side, so the division is never by zero |
| `SegmentClip.CutMakesProgress` | Resources/web/static/js/leaflet.js:2670-2678 | each cut lowers the number of cuts still possible; with rounding, in every box that rounding does not push outward |
| `SegmentClip.RoundedClipEndsExactlyWhen` | Resources/web/static/js/leaflet.js:2668-2680 | for every valid box: the rounded loop ends for every segment if and only if rounding pushes no side of the box outward |
| `Geometry.WholeIsSteady` | Resources/web/static/js/leaflet.js:5208-5209 | a renderer's bounds, which are in whole pixels, are such a box |
| `Geometry.RoundIsNearest` | Resources/web/static/js/leaflet.js:2668-2680 | a rounded coordinate is the one whole number within one half, the upper one of two |
| `Geometry.IntersectsExactlyWhen` | Resources/web/static/js/leaflet.js:3621-3622 | two bounds intersect if and only if they have a point in common |
| `SegmentClip.ClipEnds` | Resources/web/static/js/leaflet.js:3629-3632 | an end of an edge comes back unchanged when it was inside, and is moved when it was not |
| `SegmentClip.QuickRejectLosesNothing` | Resources/web/static/js/leaflet.js:3621-3622 | if the extent of the rings misses the box, the clipping loop accepts no edge, rounded or not, in any valid box |
| `SegmentClip.LineClipper.ClipSegment` | Resources/web/static/js/leaflet.js:2668-2680 | whenever the loop ends it returns what its turns lead to, with both ends inside; in every box that rounding does not push outward it ends after at most four cuts with the clip of the segment; whether it starts from the cached outcode or a new one, the cache then has the outcode of the unclipped end |
| `SegmentClip.LineClipper.ClipPoints` | Resources/web/static/js/leaflet.js:3619-3633 | for every list of rings the parts are exactly what the loop, with rounding, returns for their edges, in order, joined where they meet and split elsewhere, each part with at least two points; every point of a part is a vertex of a ring or has whole coordinates; every use of the cached outcode is justified |
| `SegmentClip.LineClipper.ClipRing` | Resources/web/static/js/leaflet.js:3626-3632 | the inner loop adds what the loop, with rounding, returns for the edges of one ring behind the parts of the earlier rings |
| `SegmentClip.JoinedExactlyInside` | Resources/web/static/js/leaflet.js:3629-3632 | a part goes on with the next edge if and only if there is one and it starts inside |
| `PolygonClip.EdgeCrosses` | Resources/web/static/js/leaflet.js:2762-2767 | the codes tell which points are beyond the side of a pass, and an edge with one end out can be cut without dividing by zero |
| `PolygonClip.ClipPolygon` | Resources/web/static/js/leaflet.js:2754-2771 | codes all points, then makes the four passes left, bottom, right, top |
| `PolygonClip.ClipSide` | Resources/web/static/js/leaflet.js:2757-2769 | one pass pushes, around the ring, what each point gives together with its predecessor |
| `PolygonClip.ClipCorner` | Resources/web/static/js/leaflet.js:2762-2767 | the branches: a cut where the edge crosses the side, and the point itself when it is not out |
| `PolygonClip.ClippedIsInside` | Resources/web/static/js/leaflet.js:2754-2771 | every vertex of the result is inside, without rounding or where rounding pushes no side outward: no later pass brings back a side that was cleared |
| `PolygonClip.ClippedIsInsideExactlyWhen` | Resources/web/static/js/leaflet.js:2754-2771 | for every valid box: the results of all rings are inside if and only if nothing is rounded or rounding pushes no side outward |
| `PolygonClip.PolygonsStayInsideExactlyWhen` | Resources/web/static/js/leaflet.js:3685-3695 | for whole-pixel bounds widened by a stroke weight, as polygons are clipped: the results of all whole-pixel rings are inside if and only if the fraction of the weight is below one half |
| `PolygonClip.HalfWeightEscapes` | Resources/web/static/js/leaflet.js:3685-3695 | bounds from 0 to 10 with a weight of one half, and the edge from (0,0) to (0,20): the result has the vertex (0,11), which is outside |
| `PolygonClip.InsideSurvives` | Resources/web/static/js/leaflet.js:2754-2771 | after any number of passes, the input vertices inside the box are still there, in their order |
| `PolygonClip.OutlineIsKept` | Resources/web/static/js/leaflet.js:2754-2771 | without rounding, every point of the input outline that is inside the box is on the outline of the result |
| `PolygonClip.OutlineIsKeptExactlyWhen` | Resources/web/static/js/leaflet.js:2754-2771 | in whole-pixel bounds: every point of every whole-pixel outline that is inside stays on the outline if and only if nothing is rounded or the bounds are a single pixel |
| `PolygonClip.InnerEdgesAreKept` | Resources/web/static/js/leaflet.js:2754-2771 | rounded or not, an input edge with both ends inside is an edge of the result |
| `PolygonClip.ClippedIsGenuine` | Resources/web/static/js/leaflet.js:2754-2771 | every vertex of the result lies on the input outline or is a corner of the box; with rounding it is within two pixels of the outline along each axis, or is a rounded corner |
| `PolygonClip.NewVerticesArePixels` | Resources/web/static/js/leaflet.js:2754-2771 | with rounding, every vertex of the result is a vertex of the input or has whole coordinates |
| `Simplify.SqDistIs` | Resources/web/static/js/leaflet.js:2635-2638 | the squared distance is the sum of the squares of the two offsets |
| `Simplify.ClosestIsNearest` | Resources/web/static/js/leaflet.js:2696-2708 | the squared distance used is attained on the segment and is the least sum of squares over all its points |
| `Simplify.ReducePoints` | Resources/web/static/js/leaflet.js:2633-2644 | radial thinning keeps the first point, greedily each one farther than the tolerance from the last kept, and the last point |
| `Simplify.ThinnedIsUnique` | Resources/web/static/js/leaflet.js:2633-2644 | those conditions determine what is kept |
| `Simplify.SplitStep` | Resources/web/static/js/leaflet.js:2648-2656 | the recursion ends and marks, in the shared array, exactly what recursive splitting at the first farthest point marks, and nothing outside its range |
| `Simplify.SplitIsUnique` | Resources/web/static/js/leaflet.js:2648-2656 | the splitting determines the marks |
| `Simplify.SplitPoints` | Resources/web/static/js/leaflet.js:2645-2661 | marks the ends, splits, and collects the marked points in order |
| `Simplify.DroppedIsNear` | Resources/web/static/js/leaflet.js:2648-2661 | a point dropped by the splitting is within tolerance of the segment between its nearest kept neighbours |
| `Simplify.Simplify` | Resources/web/static/js/leaflet.js:2631-2664 | a copy when there is no tolerance or no point, else what the two stages select with the squared tolerance; always a subsequence with the first and the last point |
| `Simplify.SimplificationIsUnique` | Resources/web/static/js/leaflet.js:2631-2664 | what the two stages select is one result only, so the contract of `Simplify` determines what it returns |
| `Simplify.SimplifiedIsSubsequence` | Resources/web/static/js/leaflet.js:2631-2664 | the result is a subsequence of the input with its first and its last point |
| `Simplify.FirstStageDropsNear` | Resources/web/static/js/leaflet.js:2634-2642 | a point dropped by the first stage is within tolerance of the last one kept before it |
| `Simplify.FirstStageKeepsFar` | Resources/web/static/js/leaflet.js:2634-2642 | a point kept by the first stage, other than the ends, is out of tolerance of the one kept before it |
| `Simplify.SecondStageDropsNear` | Resources/web/static/js/leaflet.js:2648-2661 | a point dropped by the second stage is within tolerance of a point of the segment between its kept neighbours |
| `Simplify.FarthestIsMarked` | Resources/web/static/js/leaflet.js:2648-2656 | between two ends the first point farthest from the segment is kept, and divides the rest, if it is out of tolerance; else no point between is kept |
| `Simplify.NothingIsFar` | Resources/web/static/js/leaflet.js:2631-2664 | every input point is within twice the tolerance of a segment of the result |
| `DrawOrder.DrawList.Add` | Resources/web/static/js/leaflet.js:5276-5283 | linking behind the last node appends to the list, which stays a well-formed doubly linked list |
| `DrawOrder.DrawList.Remove` | Resources/web/static/js/leaflet.js:5289-5293 | unlinking a node takes just it out of the list, wherever it stands |
| `DrawOrder.DrawList.MoveToEnd` | Resources/web/static/js/leaflet.js:5438-5444 | the pointer changes move a node to the end, and nothing when it is there |
| `DrawOrder.DrawList.MoveToStart` | Resources/web/static/js/leaflet.js:5448-5454 | the pointer changes move a node to the front, and nothing when it is there |
| `DrawOrder.Canvas.InitPath` | Resources/web/static/js/leaflet.js:5274-5284 | the layer becomes the last of the draw order and is entered under its stamp |
| `DrawOrder.Canvas.RemovePath` | Resources/web/static/js/leaflet.js:5288-5297 | the layer leaves the order and the table, and loses its node |
| `DrawOrder.Canvas.BringToFront` | Resources/web/static/js/leaflet.js:5437-5446 | the layer moves to the end of the order; a layer without a node changes nothing |
| `DrawOrder.Canvas.BringToBack` | Resources/web/static/js/leaflet.js:5447-5456 | the layer moves to the start of the order; a layer without a node changes nothing |
| `DrawOrder.Canvas.OnClick` | Resources/web/static/js/leaflet.js:5402-5406 | picks the last layer of the order that qualifies, and none only when none does |
| `DrawOrder.RunKeepsOthers` | Resources/web/static/js/leaflet.js:5274-5297 | over any run of the four operations, the layers that none of them names keep their order |
| `DrawOrder.OpPlaces` | Resources/web/static/js/leaflet.js:5274-5297 | what each of the four operations makes of the order: its layer goes to the end, out, to the end, or to the start, and the others stay as they were |
| `DrawOrder.DrawList.IsLinked` | Resources/web/static/js/leaflet.js:5276-5283 | following the links forward from the first node, or back from the last, visits the nodes in order and ends in null |
| `EventTypes.WordsOfWord` | Resources/web/static/js/leaflet.js:59-64 | a text without blanks is its only word, and no text with blanks is one of its own words |
| `EventTypes.WordsAroundBlank` | Resources/web/static/js/leaflet.js:59-64 | a blank divides a text into the words before it and the words behind it |
| `Events.OnRegistersExactlyWhen` | Resources/web/static/js/leaflet.js:233-242 | `on` and `once`, for every function and context: nothing happens when the type has a listener with this function and context already, `this` counting as none; else one listener with just these comes last of its type |
| `Events.OffFindsIt` | Resources/web/static/js/leaflet.js:296-307 | taking off a registered listener by its own function and context takes off that listener and no other, and keeps the order of the rest |
| `Events.TurnTakesOffExactlyWhen` | Resources/web/static/js/leaflet.js:270-272 | a turn takes a listener off the table if and only if it is the turn of a `once` listener with its function and context, and the listener's type is a word of the turn's type; for a single word that is the listener itself or the namesake of one cleared before by an `off` without arguments, and for several words never the listener itself |
| `Events.StaleTurnTakesOffAnother` | Resources/web/static/js/leaflet.js:270-272 | a run in which that happens: a handler clears the table and registers the function of a waiting `once` listener anew; the new listener is off after the fire, and was never called |
| `Events.SeveralWordsAreNeverOnce` | Resources/web/static/js/leaflet.js:310-314 | registered by `once` with an object whose key has a blank, a listener is called by each of any number of fires and is still registered after them |
| `Events.ExecKeeps` | Resources/web/static/js/leaflet.js:233-281 | every action, whatever its handlers do, keeps the invariants of the tables and the promises of the running fires |
| `Events.TurnsVisit` | Resources/web/static/js/leaflet.js:269-274 | the loop visits the listeners of the array as it was at the start, each turn calling the function unless it had been removed |
| `Events.FireStepByStep` | Resources/web/static/js/leaflet.js:266-276 | a fire is one turn for each listener registered at its start, in order: the `once` listener taken off, the turn noted, and the handler run unless the listener was silenced, each on what the turn before left |
| `Events.FireIsFaithful` | Resources/web/static/js/leaflet.js:258-281 | for any actions of the handlers, `fire` visits in order exactly the listeners registered at its start, calls each exactly when it had not been removed by name before its turn, and restores the firing count |
| `Events.EveryRunIsSound` | Resources/web/static/js/leaflet.js:233-281 | after any run: no function and context registered twice for a type, the count back at zero, no removed listener called, and a `once` listener of a single word called at most once unless an `off` without arguments took it off during a fire |
| `OnceListeners.CalledTwiceExactlyWhen` | Resources/web/static/js/leaflet.js:219-281 | for every run and every `once` listener of a single word: it is called more than once if and only if an `off` without arguments took it off while at least two running fires had yet to reach it; it is then called once by each of those |
| `OnceListeners.CallsWithinDepth` | Resources/web/static/js/leaflet.js:219-281 | a `once` listener of a single word is called at most once, or as often as there are fires running at the deepest `off` without arguments |
| `OnceListeners.OnceMeansOnce` | Resources/web/static/js/leaflet.js:219-281 | if `off` without arguments happens with at most one fire running, every `once` listener of a single word is called at most once |
| `OnceListeners.OneFireIsTheMost` | Resources/web/static/js/leaflet.js:219-281 | that bound is tight: with two fires running, a listener is called twice |
| `Events.ClearedOnceListenerRunsTwice` | Resources/web/static/js/leaflet.js:219-232 | a run in which a `once` listener is called twice: a handler clears the table in a nested fire, and the outer fire still holds the listener |
| `EventedObject.Evented.Listens` | Resources/web/static/js/leaflet.js:296-307 | the first index with this function and context, `this` counting as no context |
| `EventedObject.Evented.AddEvent` | Resources/web/static/js/leaflet.js:233-242 | pushes in place one new listener with this function, context and `once`, unless that pair is registered, and then changes nothing |
| `EventedObject.Evented.OffEvent` | Resources/web/static/js/leaflet.js:253-256 | takes one listener off: from a copy of the array and silenced while firing, in place otherwise |
| `EventedObject.Evented.Off` | Resources/web/static/js/leaflet.js:219-228 | `off` with a function takes the listener off each word of the text in turn |
| `EventedObject.Evented.OffEvents` | Resources/web/static/js/leaflet.js:246-251 | drops a type, and silences its listeners while firing |
| `EventedObject.Evented.OffEverything` | Resources/web/static/js/leaflet.js:229-230 | drops the table and silences nothing |
| `EventedObject.Evented.FireEvent` | Resources/web/static/js/leaflet.js:258-281 | the object after a fire is the machine after it, for every script of its handlers |
| `EventedObject.Evented.FireTurn` | Resources/web/static/js/leaflet.js:270-273 | one turn: a `once` listener is taken off, from the words of the type, before its function is called |
| `EventedObject.Evented.RunScript` | Resources/web/static/js/leaflet.js:273 | what a handler does to the object is what its script does to the machine |
| `TilePruning.NearestActiveAncestorSurvives` | Resources/web/static/js/leaflet.js:4750-4751 | the nearest active ancestor, up to five levels, of a current tile that is not active survives |
| `TilePruning.SurvivorsStandIn` | Resources/web/static/js/leaflet.js:4741-4756 | a survivor that is not current is loaded or active, and is an ancestor 1 to 5 levels up of a current inactive tile with no active one nearer, or, where no such ancestor is active, a descendant 1 or 2 levels down with no active one between |
| `TilePruning.ShownAncestorSurvives` | Resources/web/static/js/leaflet.js:4773-4783 | conversely, every loaded or active ancestor 1 to 5 levels up with no active one nearer survives |
| `TilePruning.ShownDescendantSurvives` | Resources/web/static/js/leaflet.js:4784-4794 | and where no ancestor 1 to 5 levels up is active, every loaded or active descendant 1 or 2 levels down with no active one between survives |
| `TilePruning.AncestorCovers` | Resources/web/static/js/leaflet.js:4773-4775 | the ancestor n levels up is the tile whose square, 2^n times as wide, covers this one; negative coordinates included |
| `TilePruning.GridLayer.PruneTiles` | Resources/web/static/js/leaflet.js:4741-4756 | outside the zoom range nothing is left; inside it exactly the tiles that must survive are left, all current ones among them |
| `TilePruning.GridLayer.RetainCurrent` | Resources/web/static/js/leaflet.js:4747-4748 | first loop: exactly the current tiles are retained |
| `TilePruning.GridLayer.RetainStandIns` | Resources/web/static/js/leaflet.js:4749-4751 | second loop: what stands in for current inactive tiles is retained as well |
| `TilePruning.GridLayer.RetainFor` | Resources/web/static/js/leaflet.js:4750-4751 | for one tile: from above, or from below too when that ends in no active tile |
| `TilePruning.GridLayer.RetainParent` | Resources/web/static/js/leaflet.js:4773-4783 | retains exactly the shown ancestors up to the nearest active one, ends, and says whether there was one; negative coordinates included |
| `TilePruning.GridLayer.RetainChildren` | Resources/web/static/js/leaflet.js:4784-4794 | retains exactly the shown descendants with no active tile between, and ends |
| `TilePruning.GridLayer.RetainChild` | Resources/web/static/js/leaflet.js:4786-4793 | the body of the two loops, for one child |
| `TilePruning.GridLayer.RemoveOthers` | Resources/web/static/js/leaflet.js:4752-4753 | third loop: exactly the retained tiles stay |
| `ProfilePool.PoolIsSafeExactlyWhen` | clientcontroll/controll.go:495-611 | from a moment when nobody is inside: no interleaving ever blocks a push under the lock or leaves callers that can never move, if and only if the pool counts as full (of at least one profile) or has room for all callers |
| `ProfilePool.OverfilledPoolSticks` | clientcontroll/controll.go:497-526 | otherwise, a run in which one caller too many passes the capacity test before the count is raised; it ends holding the lock before a full channel, and nobody can move again |
| `ProfilePool.CountStaysWithinCapacity` | clientcontroll/controll.go:1321-1333 | in the safe cases, at every moment of every interleaving the count is the queued profiles plus those in flight, and at most the capacity; the start of all channels from an empty pool is one of them |
| `ProfilePool.RunKeepsBalance` | clientcontroll/controll.go:523-526 | under every interleaving the count is the queued profiles plus those being fetched or held |
| `ProfilePool.RunKeepsSafe` | clientcontroll/controll.go:495-611 | every interleaving keeps a pool balanced and within its bound, from any such moment: callers inside, profiles held, or the pool full |
| `ProfilePool.SafeNeverBlocks` | clientcontroll/controll.go:1110-1112 | a balanced pool within its bound never has a caller waiting in the push |
| `ProfilePool.SafeNeverSticks` | clientcontroll/controll.go:504-515 | while a caller of such a pool has not returned, some caller can move |
| `ProfilePool.RunConserves` | clientcontroll/controll.go:504-611 | profiles queued and carried are always those of the start plus those the server handed out |
| `ProfilePool.FullPoolOnlyCirculates` | clientcontroll/controll.go:501-522 | once the pool counts as full, any number of concurrent callers conserve the multiset of queued and carried profiles |
| `ProfilePool.ChannelIsFirstInFirstOut` | clientcontroll/controll.go:501-522 | the channel hands out its oldest profile and takes new ones at its end, and only the two moves that do so change it |
| `ProfilePool.AllReturned` | clientcontroll/controll.go:1321-1333 | when all callers have returned, the channel holds exactly the counted profiles: the old ones and those received |
| `ProfilePool.RunIsBounded` | clientcontroll/controll.go:495-611 | in every pool, no run has more turns than six for each caller |
| `ProfilePool.SafePoolFinishes` | clientcontroll/controll.go:495-611 | from every safe moment there is a run at whose end all callers have returned |
| `ProfilePool.EveryRunFinishes` | clientcontroll/controll.go:1321-1333 | in the safe cases every run goes on to one at whose end all callers have returned, nobody holds the lock, and the channel holds exactly the counted profiles |
| `ErrorCounters.UnreportedLaw` | clientcontroll/controll.go:823-848 | for every run of records of no negative weight, successes, route errors, fetched profiles and given-up counts: total and route errors are never negative, equal the largest net weight over all suffixes of the run, and the fail-over tests are true exactly after a bad stretch |
| `ErrorCounters.UnreportedIsNeverOverdrawn` | clientcontroll/controll.go:823-848 | in such runs nothing takes more off the total than there is |
| `ErrorCounters.CounterIsWorstSuffix` | clientcontroll/controll.go:823-848 | in any run, with reported proxies too: a counter off which nothing ever took more than there was equals the largest net weight over all suffixes |
| `ErrorCounters.WorstSuffixExactlyWhen` | clientcontroll/controll.go:318-322 | for every run: the total is non-negative at every moment if and only if no report takes more off than there is, and equals the worst suffix at every moment if and only if so |
| `ErrorCounters.ReportingOverdraws` | clientcontroll/controll.go:318-322 | six records of weight 1 for a, six successes of b, thirteen records of weight 1 for c, then a and c reported: the total is -6 |
| `ErrorCounters.SomeSuffixIsAsBad` | clientcontroll/controll.go:823-848 | in every run, overdrawn or not, some suffix has a net weight of at least the counter |
| `ErrorCounters.RouteIsNeverOverdrawn` | clientcontroll/controll.go:823-848 | the counter of route errors is never overdrawn, in any run |
| `ErrorCounters.FailsOverExactlyAfterBadStretch` | clientcontroll/controll.go:709-715 | in any run the fail-over tests are true only when some suffix has route weight above 10 or weight above 70, and exactly then in every run without reported proxies or whose total was never overdrawn; the test of the route is so in every run |
| `ErrorCounters.TotalWithinPerProxy` | clientcontroll/controll.go:823-848 | the total is at most the sum of the counts per proxy, none of which is negative, and of the counts given up since; it is at least zero in every run without reported proxies or when never overdrawn |
| `ErrorCounters.ErrorLedger.ErrRecord` | clientcontroll/controll.go:823-832 | the counters are those of the history with one record more, of any weight |
| `ErrorCounters.ErrorLedger.ErrVanish` | clientcontroll/controll.go:834-848 | the counters are those of the history with one success more, saturating at zero |
| `ErrorCounters.ErrorLedger.RouteError` | clientcontroll/controll.go:362-371 | the counters are those of the history with one failed exchange more |
| `ErrorCounters.ErrorLedger.NewProfile` | clientcontroll/controll.go:392-399 | the counters are those of the history with one fetched profile more, which sets its count back; one in place of a reported proxy takes a route error off |
| `ErrorCounters.ErrorLedger.ReportProxy` | clientcontroll/controll.go:318-322 | the counters are those of the history with one proxy reported, whose count is taken off the total as it is |
| `ErrorCounters.ErrorLedger.DropProxy` | clientcontroll/controll.go:1486-1496 | switching automatically gives up the count of one proxy and leaves the total |
| `ErrorCounters.ErrorLedger.DropAll` | clientcontroll/controll.go:1051-1061 | changing the protocol gives up the counts of all proxies and leaves the total |
| `ErrorCounters.ErrorLedger.ChangeRoute` | clientcontroll/controll.go:1024-1037 | changing the route resets all three: the history begins anew |
| `ErrorCounters.ErrorLedger.MustChangeRoute` | clientcontroll/controll.go:709-715 | the two tests on the counters: true only when some suffix of the history was bad enough, and exactly then when no proxy was reported or the total was never overdrawn |
| `Base64.RoundTrip` | connections/prodns/dnsserver.go:40-63 | standard encoding then decoding gives the bytes back |
| `Base64.SymbolIs` | connections/prodns/dnsserver.go:47 | the symbols are those of table 1 of RFC 4648 |
| `Base64.FirstQuantumIsNumber` | connections/prodns/dnsserver.go:47 | each group of three bytes, as one number of 24 bits with zeros for missing bytes, is written as four digits of six bits, padded for the missing bytes |
| `Base64.DecodeQuantumIsNumber` | connections/prodns/dnsserver.go:53 | four characters that decode, as one number of 24 bits, give its bytes, as many as there is no padding for |
| `Base64.DecodesExactlyWhen` | connections/prodns/dnsserver.go:53 | a text decodes if and only if, line breaks apart, it is whole groups of the alphabet with at most two pad characters, all at the end |
| `Base64.LineBreaksAreSkipped` | connections/prodns/dnsserver.go:53 | decoding skips line feeds and carriage returns, wherever they stand |
| `Base64.EncodeIsWellFormed` | connections/prodns/dnsserver.go:47 | the encoding is whole groups of the alphabet, padded by exactly what the last group lacks (section 4 of RFC 4648) |
| `Base64.DecodedLength` | connections/prodns/dnsserver.go:53 | what decodes comes in whole groups of alphabet or pad characters, at most three bytes each |
| `ConfigBase64.Encode` | Resources/web/config.html:154 | `encode`, with its bit operators, is the Base64 of RFC 4648 of the UTF-8 of the text, each "rn" joined to "n" |
| `ConfigBase64.Decode` | Resources/web/config.html:154 | `decode` drops all other characters, decodes groups of four with NaN and empty-string rules at the end, then decodes UTF-8 |
| `ConfigBase64.Utf8Encode` | Resources/web/config.html:154 | `_utf8_encode` joins "rn" and writes each code unit in one to three bytes; the markers it puts in by bitwise or never overlap the bits they mark |
| `ConfigBase64.Utf8Decode` | Resources/web/config.html:154 | `_utf8_decode` reads one to three codes at a time, past the end as well |
| `ConfigBase64.Utf8UnitIs` | Resources/web/config.html:154 | a code unit is laid out in one to three bytes as section 3 of RFC 3629 has it |
| `ConfigBase64.Utf8Inverts` | Resources/web/config.html:154 | the UTF-8 layer gives back every text of code units, lone surrogates included |
| `ConfigBase64.DecodeAgreesWithRfc` | Resources/web/config.html:154 | on every text that is valid Base64 the page's arithmetic gives the bytes of RFC 4648 |
| `ConfigBase64.OthersAreSkipped` | Resources/web/config.html:154 | decoding skips every character but letters, digits, plus, slash and equals sign |
| `ConfigBase64.MissingReadsAsA` | Resources/web/config.html:154 | a last group that is cut short decodes as if filled up with "A" |
| `ConfigBase64.RoundTrip` | Resources/web/config.html:154 | decoding an encoding gives every text back with each "rn" joined, and the encoding is well formed |
| `ConfigBase64.JoinRnReplaces` | Resources/web/config.html:154 | every "rn", wherever it stands, becomes "n" |
| `ConfigBase64.UnchangedExactlyWithoutRn` | Resources/web/config.html:154 | the joining leaves exactly the texts without "rn" as they were |
| `ConfigBase64.EncodeThenDecode` | Resources/web/config.html:154 | the two calls in turn: the text survives if and only if it has no "rn" |
| `Decimal.AtoiOfItoa` | connections/prosocks5/socks5.go:74-77 | parsing a printed number gives it back, with a sign or none; a number that is too large gives the nearest one, as a failure |
| `Decimal.DigitOfItoa` | connections/prosocks5/socks5.go:537 | each digit of a printed number is the one of its place, with no leading zero |
| `Decimal.AtoiOfOther` | connections/prosocks5/socks5.go:74-77 | a character that is no digit makes a text no number, unless a number that is too large stands before it |
| `Connections.GatheredIsEnough` | connections/prosocks5/socks5.go:251 | reading at least so many bytes gets enough when there are enough, else all, and never more than there are or than fit |
| `Connections.Conn.ReadAtLeast` | connections/prosocks5/socks5.go:251 | puts exactly the next bytes of the stream in the buffer, however they arrive in pieces |
| `Connections.Conn.ReadOn` | connections/prosocks5/socks5.go:291 | after reading on, the buffer holds the longer prefix of the stream and is unchanged behind it; or the stream ended, and the buffer holds all of it |
| `Socks5.HostToRaw` | connections/prosocks5/socks5.go:72-87 | the frame of the host and port, byte for byte, or of the host's own port with port -1; length cut to a byte, port to 16 bits |
| `Socks5.GetLocalRequest` | connections/prosocks5/socks5.go:227-323 | what the client makes of the first bytes and the rest of the stream; on success nothing is lost between `rawaddr` and what is left unread |
| `Socks5.LocalAcceptsExactlyWhen` | connections/prosocks5/socks5.go:227-300 | for every request of address type 1, 3, 4 or 5, under any chunking: panics exactly for names above 250 bytes, else hands on the whole request exactly when its first bytes did not reach beyond it; with nothing behind the request it always does |
| `Socks5.HostFollowsArrival` | connections/prosocks5/socks5.go:277-296 | `host` is the name exactly when every byte of the name still missing after the first read is zero |
| `Socks5.GetServerRequest` | connections/prosocks5/socks5.go:421-540 | what the server makes of the stream, however it arrives: the raw bytes of a request or of a stream that is not SOCKS are with the unread ones all that came; those returned with the error of a frame that ended early are what came, padded with zeros to the length of the frame |
| `Socks5.AcceptedExactlyWhen` | connections/prosocks5/socks5.go:421-540 | which streams the server accepts, how many bytes it takes, and where the host comes from: for IPv4 four numbers between dots that are the four address bytes, then the port; for IPv6 what is shown of 16 bytes; for a name the name and the port, in brackets if it has a colon; for address type 9 the name alone |
| `Socks5.DottedReadsBack` | connections/prosocks5/socks5.go:522 | the printed IPv4 address reads back as its four bytes in order |
| `Socks5.RelayIsTransparentExactly` | connections/prosocks5/socks5.go:421-540 | the server reads back exactly the request, for every tail, if and only if the address is not IPv6 |
| `Socks5.RequestSurvivesRelay` | connections/prosocks5/socks5.go:227-300 | client then server: under any chunking a request that is not IPv6, with a name of at most 250 bytes, is read back whole, the tail is left, and the server's host is the four address bytes in dotted form, or the name, and the port |
| `Socks5.FrameComesBackExactlyWhen` | connections/prosocks5/socks5.go:72-87 | the server takes exactly the encoder's frame, before any tail, if and only if the host has at most 255 bytes; then host and port are the encoded ones |
| `Socks5.HostPortComesBackExactlyWhen` | clientcontroll/httpcontroll.go:43-46 | "h:p" comes back as "h:p" if and only if p is a printed number below 65536 |
| `Socks5.Socks5HandShake` | connections/prosocks5/socks5.go:542-578 | what the greeting comes to, a failing write included, the confirmation sent, and the greeting alone consumed |
| `Socks5.GreetingConfirmedExactlyWhen` | connections/prosocks5/socks5.go:542-578 | under any chunking a greeting is confirmed exactly when its first bytes did not reach beyond it |
| `DnsCarrier.SurvivesExactlyUpTo186Bytes` | connections/prodns/dns_local.go:156-169 | a message packed, framed, parsed, stripped of its brackets and unpacked is the same message if and only if it has at most 186 bytes, whatever follows the frame |
| `DnsCarrier.DispatchStripsBrackets` | connections/base/proxytunnel.go:142-153 | the server strips exactly the brackets and the port that a packed message was put between |
| `DnsCarrier.UnpackBehindScheme` | connections/prodns/dnsserver.go:50-63 | unpacking decodes what stands behind the scheme |
| `DnsCarrier.DispatchExactlyWhen` | connections/base/proxytunnel.go:142-153 | where the server sends a host, by what it starts with: R://, dns://, [dns:// or none of these |
| `DnsCarrier.UnpacksOnlyScheme` | connections/prodns/dnsserver.go:40-63 | packing puts dns:// in front, and only what starts with it is unpacked |
| `DnsCarrier.HostIsCut` | connections/prosocks5/socks5.go:72-87 | of any frame the server takes the host cut to its length modulo 256 |
| `DnsCache.HitsExactlyWhenLatestIsFresh` | connections/prodns/dns_local.go:288-326 | with a clock that never runs back, a lookup hits exactly when the latest resolution since the last clearing is unexpired, and finds that one: deletion on expiry is unobservable |
| `DnsCache.LookupChangesNoLaterOne` | connections/prodns/dns_local.go:288-326 | after any lookup, every later lookup of any name finds what it would have found without it; what is found later would have been found before |
| `DnsCache.IndexFollowsLog` | connections/prodns/search_dns.go:33-38 | the reverse index names the latest indexed resolution that had the address, whatever expired or was cleared |
| `DnsCache.LocalIndexFollowsLog` | connections/prodns/search_dns.go:9-31 | the local index has the latest local resolution of an address since the rules were last read, or a plain rule of those |
| `DnsCache.PatternsFollowLog` | connections/prodns/search_dns.go:9-31 | the patterns are the rules with a wildcard of every reading, so the equality test of `IsLocal` is never reached |
| `DnsCache.MatchedForGood` | connections/prodns/search_dns.go:9-31 | what a pattern matched once is local for good: reading other rules takes back plain names only |
| `DnsCache.LineIsRule` | connections/prodns/search_dns.go:9-31 | a line is a plain rule or a pattern exactly when it is not blank, does not start with a number sign and has no blank inside; a pattern when it has an asterisk |
| `DnsCache.AnswerHasAllAddresses` | connections/prodns/dns_local.go:297-318 | an answer starts with the chosen address, has exactly the record's addresses, and permutes them exactly when the chosen one stands once |
| `DnsCache.UsableAreAll` | connections/prodns/dns_local.go:102-118 | the stored addresses are all those answered, as often, but for empty ones and 0.0.0.0 |
| `DnsCache.Resolver.ResolveLocal` | connections/prodns/dns_local.go:97-131 | stores the usable addresses for an hour, none of them included, when there is any answer, and makes them local |
| `DnsCache.Resolver.ResolveRemoteOld` | connections/prodns/dns_local.go:190-213 | stores for five minutes, only when an address is usable |
| `DnsCache.Resolver.SetConfigIP` | connections/prodns/dns_local.go:133-144 | stores the two built-in names, outside the index |
| `DnsCache.Resolver.ResolveCache` | connections/prodns/dns_local.go:288-326 | hit and answer are those of the log; nothing but the lookup is noted |
| `DnsCache.Resolver.Clear` | connections/prodns/search_dns.go:64-78 | all records go, the index stays, and the rules are read again if there is a file of them |
| `DnsCache.Resolver.LoadLocalRule` | connections/prodns/search_dns.go:9-31 | of the lines that are not blank, no comment and have no blank inside, the plain ones replace the local index and those with a wildcard join the patterns |
| `DnsCache.Resolver.IsLocal` | connections/prodns/search_dns.go:40-62 | true exactly for what was resolved or named as local since the rules were last read, and for what any pattern ever read matches |
| `DnsCache.Resolver.SearchIP` | connections/prodns/search_dns.go:33-38 | the name of the latest resolution in the log that had the address, empty without one |
| `TunnelRegistry.RunConserves` | servercontroll/proxy_release.go:92-147 | in every run from any list and counts, for each protocol, the tunnels listed at the start or since, with the errors of the start, are those still listed plus the error count |
| `TunnelRegistry.OthersKeepOrder` | servercontroll/proxy_release.go:99-127 | deletion leaves the tunnels of other names, as often and in the same order |
| `TunnelRegistry.ChainTakesTurns` | servercontroll/all_servers.go:387-396 | in a run of reports that each name the tunnel built before, from zero counts, with any tunnels of other names listed before or added in between and with tunnels that delete themselves again as they close: the protocols take turns TLS, QUIC, KCP, the counts are exact, and the tunnel built last is the one listed |
| `TunnelRegistry.ChainKeepsCountsClose` | servercontroll/all_servers.go:387-396 | at every moment of every such run kcp <= quic <= tls <= kcp + 1 |
| `TunnelRegistry.ChainStaysEven` | servercontroll/all_servers.go:387-396 | from any counts that differ by one at most, they do so at every moment of such a run, and what is built is what they choose |
| `TunnelRegistry.FirstReportIsEven` | servercontroll/proxy_release.go:99-127 | a first report from zero counts, of a tunnel that was not built by one, takes out just that tunnel and leaves such counts |
| `TunnelRegistry.Registry.AddProxy` | servercontroll/proxy_release.go:92-97 | the list is that of the log with one tunnel more |
| `TunnelRegistry.Registry.DelProxy` | servercontroll/proxy_release.go:99-127 | deletes every tunnel of that name, counts each, and says whether there was one |
| `TunnelRegistry.Registry.NewProxyByErrCount` | servercontroll/proxy_release.go:129-147 | builds and lists a tunnel: QUIC if it failed less often than TLS, else KCP if that did, else TLS |
| `TunnelRegistry.Registry.ReportErrors` | servercontroll/all_servers.go:387-392 | a report deletes, then builds |
| `SsUri.HostOutsideParsesExactlyWhen` | connections/base/base_config_parse.go:17-67 | ss://base64(method:password)@host:port gives back all four parts if and only if the first byte inside is not in B0-B3 or FC-FF, those whose Base64 starts with a character that trimming takes |
| `SsUri.AllInsideParsesExactlyWhen` | connections/base/base_config_parse.go:17-67 | the same for ss://base64(method:password@host:port) |
| `SsUri.FormsAgree` | connections/base/base_config_parse.go:22-24 | for an ASCII method both forms give the configuration they were written from |
| `SsUri.AcceptedIsWritten` | connections/base/base_config_parse.go:17-67 | conversely, a complete configuration comes only of one of the two forms, and has the method, password, host and port written there |
| `SsUri.TrimmedIs` | connections/base/base_config_parse.go:24 | trimming takes off the longest start made of the characters s, colon and slash |
| `SsUri.Config.ParseURI` | connections/base/base_config_parse.go:17-67 | the fields after a call, for each outcome; a bad port is found only after method and password are set |

## Left out

- Floating point: coordinates are exact reals, so rounding errors of the arithmetic are not captured; `Math.round` is.
- SegmentClip.LineClipper.ClipPoints: the `===` test for an unclipped end compares values rather than point objects; `SegmentClip.ClipEnds` shows why an unclipped end keeps its value.
- SegmentClip.LineClipper.ClipSegment: only for segments whose loop ends; `SegmentClip.RoundedClipEndsExactlyWhen` says in which boxes it does so for all.
- PolygonClip.OutlineIsKept: for clipping without rounding; `PolygonClip.OutlineIsKeptExactlyWhen` shows that with it the outline moves in all bounds but a single pixel, and `PolygonClip.InnerEdgesAreKept`, `PolygonClip.InsideSurvives` and `PolygonClip.ClippedIsGenuine` say what holds.
- Events.FireIsFaithful: exceptions in handlers and propagation to parents are not modelled; a listener taken off by an `off` without arguments counts as not removed, as the code still calls it.
- EventedObject.Evented.FireEvent: for a fire that is not propagated to event parents.
- EventedObject.Evented.RunScript: handlers are given as the actions they take, not as closures, and an action list per turn stands for whatever they decide at run time.
- DrawOrder.Canvas.OnClick: the hit test and the dragged test are parameters; nothing is drawn.
- TilePruning.GridLayer.PruneTiles: the removal of a tile's element and its events is only the removal from the table.
- ProfilePool.PoolIsSafeExactlyWhen: the connections that a caller opens after its push, the automatic switch of profiles, and the reporting that resets counters are not part of the interleaving; a poller that never finds a profile is waiting, not failing.
- ErrorCounters.CounterIsWorstSuffix: sequential, as most of the code holds the lock; the full reset when the client starts is that of a change of route.
- ErrorCounters.TotalWithinPerProxy: for records and reports of no negative weight, as at all callers.
- Base64.DecodedLength: decoding is that of Go's standard encoding, where bits left over by padding are ignored.
- ConfigBase64.Utf8Encode: code units are encoded one by one, as the code does, so a pair of surrogates takes six bytes where proper UTF-8 takes four.
- Socks5.GetServerRequest: the text of an IPv6 address is a parameter, as `net.IP.String` is not part of this model; any read error is taken as the end of the stream, since the code treats them alike.
- Socks5.GetLocalRequest: the branch for debugging, which is never switched on, is left out.
- DnsCarrier.SurvivesExactlyUpTo186Bytes: messages are opaque bytes; packing and unpacking by the DNS library is left out, with its errors. Replies travel unframed and are not modelled.
- DnsCache.Resolver.ResolveRemoteOld: the storing part only; the query over the network is left out.
- DnsCache.Resolver.IsLocal: whether a pattern matches is a parameter, as the expressions come from a library that is not part of this model; a pattern that does not compile matches nothing.
- DnsCache.Resolver.LoadLocalRule: the lines are given trimmed, and the message on a pattern is left out.
- DnsCache.Resolver.ResolveCache: names, addresses and times only; the fields of the resource records are left out.
- TunnelRegistry.Registry.DelProxy: sequential use only, as the list is read outside the lock; closing the tunnel and its port is left out, and no entry of the list is nil.
- TunnelRegistry.Registry.NewProxyByErrCount: configurations are an identifier and a protocol.
- Choosing a tunnel by type or by turn (`GetProxy`), which depends on a sort in a library that is not part of this model.
- The libraries `gs`, `gn`, `gt` and `dns`: splitting and prefix tests have their obvious meaning.
- Sockets, TLS, QUIC, KCP, multiplexing, HTTP handlers, deployment, shell commands and firewall rules: input and output only.
- Leaflet's rendering, projections, animation, controls and browser detection.
- The copy of the Base64 object in `forward.html`, which is the same text.
