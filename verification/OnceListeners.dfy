/**
 * When a `once` listener is called more than once: the law behind the one way in which it can be,
 * which is an `off` without arguments while several fires are running.
 */
module OnceListeners {
  import opened Events
  import opened EventTypes

  /** A running fire, between two turns: the array it goes over, and the turns it has still to take. */
  datatype Running = Running(list: nat, next: nat, end: nat)

  ghost predicate InBounds(s: State, f: Running) {
    f.list < |s.arrays| && f.next <= f.end <= |s.arrays[f.list]|
  }

  ghost predicate AllInBounds(s: State, fires: seq<Running>) {
    forall i :: 0 <= i < |fires| ==> InBounds(s, fires[i])
  }

  /** The fire has yet to reach the listener. */
  ghost predicate Awaits(s: State, f: Running, l: nat) {
    InBounds(s, f) && l in s.arrays[f.list][f.next..f.end]
  }

  ghost function Due(s: State, f: Running, l: nat): nat {
    if Awaits(s, f, l) then 1 else 0
  }

  /** How many of the running fires have yet to reach the listener. */
  ghost function Awaiting(s: State, fires: seq<Running>, l: nat): nat {
    if fires == [] then 0
    else Awaiting(s, fires[..|fires| - 1], l) + Due(s, fires[|fires| - 1], l)
  }

  /** What an `off` without arguments takes off. */
  ghost function Gone(s: State): set<nat> {
    set t, l | t in s.events && l in Registered(s, t) :: l
  }

  // For each time that an `off` without arguments took the listener off during a fire: how many
  // running fires had yet to reach it. `fires` are those that run around the action.

  ghost function ActWaits(s: State, a: Act, l: nat, fires: seq<Running>): seq<nat>
    decreases a
  {
    match a
    case OffAll => if s.firing > 0 && l in Gone(s) then [Awaiting(s, fires, l)] else []
    case Fire(t, hs) =>
      if Registered(s, t) == [] then []
      else TurnsWaits(s.(firing := s.firing + 1), t, s.events[t], 0, |Registered(s, t)|, hs, l, fires)
    case _ => []
  }

  ghost function RunWaits(s: State, script: Script, l: nat, fires: seq<Running>): seq<nat>
    decreases script
  {
    match script
    case Done => []
    case Then(a, rest) => ActWaits(s, a, l, fires) + RunWaits(Exec(s, a), rest, l, fires)
  }

  ghost function TurnsWaits(s: State, t: EventType, list: nat, k: nat, r: nat, hs: Handlers, l: nat,
                            fires: seq<Running>): seq<nat>
    decreases hs, r - k
  {
    if k >= r || list >= |s.arrays| || k >= |s.arrays[list]| || s.arrays[list][k] >= |s.cells| then []
    else
      var a := s.arrays[list][k];
      HandlerWaits(s, t, list, k, r, hs, l, fires)
      + TurnsWaits(OneTurn(s, t, a, hs), t, list, k + 1, r, RestOf(hs), l, fires)
  }

  /** While the handler of turn `k` runs, its own fire still has the turns behind `k` to take. */
  ghost function HandlerWaits(s: State, t: EventType, list: nat, k: nat, r: nat, hs: Handlers, l: nat,
                              fires: seq<Running>): seq<nat>
    requires list < |s.arrays| && k < |s.arrays[list]| && s.arrays[list][k] < |s.cells|
    decreases hs, 0
  {
    var a := s.arrays[list][k];
    if hs.Handler? && s.cells[a].fn != NOOP then
      RunWaits(BeginTurn(s, t, a), hs.script, l, fires + [Running(list, k + 1, r)])
    else
      []
  }

  // What becomes of a listener from one state to a later one.

  ghost predicate SameOnce(s: State, s': State) {
    |s.cells| <= |s'.cells| && forall i :: 0 <= i < |s.cells| ==>
      s'.cells[i].once == s.cells[i].once && s'.cells[i].etype == s.cells[i].etype
  }

  /** A `once` listener of a single word, or one still to come. */
  ghost predicate IsOnce(s: State, l: nat) {
    l < |s.cells| ==> s.cells[l].once && IsWord(s.cells[l].etype)
  }

  ghost predicate Apart(s: State, l: nat) {
    !(l in s.removed && l in s.cleared)
  }

  /**
   * A removed listener stays removed. A cleared one is called as often as it was `due`. Any other
   * that is cleared on the way is at that moment due in all the running fires together as often
   * as it was called since and is still awaited outside.
   */
  ghost predicate Fate(s: State, s': State, l: nat, fires: seq<Running>, waits: seq<nat>, due: nat) {
    && (l in s.removed ==> l in s'.removed) && (l in s.cleared ==> l in s'.cleared)
    && if l in s.removed then waits == []
       else if l in s.cleared then waits == [] && Invocations(s'.log, l) == Invocations(s.log, l) + due
       else if l in s'.cleared then waits == [Invocations(s'.log, l) + Awaiting(s', fires, l)]
       else waits == []
  }

  ghost predicate Follows(s: State, s': State, l: nat, fires: seq<Running>, waits: seq<nat>, due: nat) {
    SameOnce(s, s') && Apart(s', l) && (IsOnce(s', l) ==> Fate(s, s', l, fires, waits, due))
  }

  /** Arrays only grow. */
  ghost predicate Grown(s: State, s': State) {
    |s.arrays| <= |s'.arrays| && forall a :: 0 <= a < |s.arrays| ==> s.arrays[a] <= s'.arrays[a]
  }

  lemma AwaitsLater(s: State, s': State, f: Running, l: nat)
    requires Grown(s, s') && InBounds(s, f)
    ensures InBounds(s', f) && (Awaits(s', f, l) <==> Awaits(s, f, l))
  {
    var list, list' := s.arrays[f.list], s'.arrays[f.list];
    assert list <= list';
    assert list'[f.next..f.end] == list[f.next..f.end];
  }

  /** What the running fires await does not change while they wait. */
  lemma {:induction false} AwaitingLater(s: State, s': State, fires: seq<Running>, l: nat)
    requires AllInBounds(s, fires) && Grown(s, s')
    ensures AllInBounds(s', fires) && Awaiting(s', fires, l) == Awaiting(s, fires, l)
  {
    forall i | 0 <= i < |fires| ensures InBounds(s', fires[i]) {
      AwaitsLater(s, s', fires[i], l);
    }
    if fires != [] {
      AwaitingLater(s, s', fires[..|fires| - 1], l);
      AwaitsLater(s, s', fires[|fires| - 1], l);
    }
  }

  lemma AwaitingOneMore(s: State, fires: seq<Running>, f: Running, l: nat)
    ensures Awaiting(s, fires + [f], l) == Awaiting(s, fires, l) + Due(s, f, l)
  {
    assert (fires + [f])[..|fires|] == fires;
  }

  lemma LaterGrows(s: State, s': State)
    requires Later(s, s')
    ensures Grown(s, s') && SameOnce(s, s')
  {
  }

  lemma {:induction false} NothingAwaited(s: State, s': State, fires: seq<Running>, l: nat)
    requires Keeps(s, s') && |fires| == s.firing && AllInBounds(s, fires)
    ensures AllInBounds(s', fires) && Awaiting(s', fires, l) == Awaiting(s, fires, l)
  {
    hide Inv, Later, Grown, InBounds;
    if s.firing > 0 {
      LaterGrows(s, s');
      AwaitingLater(s, s', fires, l);
    }
  }

  // Single actions.

  lemma RegisteredIsLive(s: State, t: EventType, l: nat)
    requires Inv(s) && l in Registered(s, t)
    ensures l < |s.cells| && l !in s.removed && l !in s.cleared
  {
    hide Registered, Shape, Accounted, OnceAtMost;
    assert AllLive(s, t, Registered(s, t));
    var k :| 0 <= k < |Registered(s, t)| && Registered(s, t)[k] == l;
    assert Live(s, t, Registered(s, t)[k]);
  }

  lemma Unchanged(s: State, l: nat, fires: seq<Running>)
    requires Apart(s, l)
    ensures Follows(s, s, l, fires, [], 0)
  {
  }

  lemma AddFollows(s: State, s': State, t: EventType, l: nat, fires: seq<Running>)
    requires Adds(s, s', t) && Apart(s, l)
    ensures Follows(s, s', l, fires, [], 0)
  {
    hide Registered, Awaiting, Invocations;
  }

  lemma NamedFollows(s: State, s': State, gone: set<nat>, l: nat, fires: seq<Running>)
    requires Removes(s, s', gone, true) && Apart(s, l)
    requires l in gone ==> l !in s.removed && l !in s.cleared
    ensures Follows(s, s', l, fires, [], 0)
  {
    hide Registered, LeftOf, Awaiting, Invocations;
  }

  lemma ClearFollows(s: State, s': State, l: nat, fires: seq<Running>)
    requires Removes(s, s', Gone(s), false) && s'.arrays == s.arrays && Apart(s, l) && OnceAtMost(s)
    requires l in Gone(s) ==> l < |s.cells| && l !in s.removed && l !in s.cleared
    ensures Follows(s, s', l, fires, if l in Gone(s) then [Awaiting(s, fires, l)] else [], 0)
  {
    hide Registered, LeftOf, Gone;
    SameArrays(s, s', fires, l);
    hide Awaiting, Invocations;
  }

  lemma {:induction false} SameArrays(s: State, s': State, fires: seq<Running>, l: nat)
    requires s'.arrays == s.arrays
    ensures Awaiting(s', fires, l) == Awaiting(s, fires, l)
  {
    if fires != [] {
      SameArrays(s, s', fires[..|fires| - 1], l);
    }
  }

  lemma OffOneFollows(s: State, t: EventType, fn: Fn, ctx: Context, l: nat, fires: seq<Running>)
    requires Inv(s) && Apart(s, l)
    ensures Follows(s, RemoveOne(s, t, fn, ctx), l, fires, [], 0)
  {
    hide Follows, Registered, Index, Tables, Accounted, Shape;
    var ls := Registered(s, t);
    var i := Index(s, ls, fn, Normal(ctx));
    if i < |ls| {
      RemoveOneRemoves(s, t, fn, ctx);
      RegisteredIsLive(s, t, ls[i]);
      NamedFollows(s, RemoveOne(s, t, fn, ctx), {ls[i]}, l, fires);
    } else {
      RemoveOneAbsent(s, t, fn, ctx);
      Unchanged(s, l, fires);
    }
  }

  lemma RemoveOneAbsent(s: State, t: EventType, fn: Fn, ctx: Context)
    requires Index(s, Registered(s, t), fn, Normal(ctx)) == |Registered(s, t)|
    ensures RemoveOne(s, t, fn, ctx) == s
  {
  }

  lemma OffTypeFollows(s: State, t: EventType, l: nat, fires: seq<Running>)
    requires Inv(s) && Apart(s, l)
    ensures Follows(s, RemoveType(s, t), l, fires, [], 0)
  {
    hide Follows, Registered, RemoveType, Accounted, Tables, OnceAtMost;
    if t in s.events {
      var ls := Registered(s, t);
      RemoveTypeRemoves(s, t);
      if l in ls {
        RegisteredIsLive(s, t, l);
      }
      NamedFollows(s, RemoveType(s, t), (set x | x in ls), l, fires);
    } else {
      RemoveTypeAbsent(s, t);
      Unchanged(s, l, fires);
    }
  }

  lemma OffAllFollows(s: State, l: nat, fires: seq<Running>)
    requires Inv(s) && Apart(s, l)
    ensures Follows(s, Exec(s, OffAll), l, fires, ActWaits(s, OffAll, l, fires), 0)
  {
    hide Follows, Registered, Accounted, Tables, OnceAtMost, Awaiting;
    RemoveAllRemoves(s);
    if l in Gone(s) {
      var t :| t in s.events && l in Registered(s, t);
      RegisteredIsLive(s, t, l);
    }
    if s.firing > 0 {
      ClearFollows(s, Exec(s, OffAll), l, fires);
    } else {
      NamedFollows(s, Exec(s, OffAll), Gone(s), l, fires);
    }
  }

  // Runs.

  /** One stretch after the other, around the same fires. */
  lemma FollowsOn(s: State, m: State, s': State, l: nat, fires: seq<Running>, before: seq<nat>, after: seq<nat>)
    requires Follows(s, m, l, fires, before, 0) && Follows(m, s', l, fires, after, 0)
    requires Awaiting(s', fires, l) == Awaiting(m, fires, l)
    ensures Follows(s, s', l, fires, before + after, 0)
  {
    hide Awaiting, Invocations;
    assert IsOnce(s', l) ==> IsOnce(m, l);
    assert before + [] == before && [] + after == after;
  }

  lemma {:induction false} ExecFollows(s: State, a: Act, l: nat, fires: seq<Running>)
    requires Inv(s) && ProperAct(a) && Apart(s, l) && |fires| == s.firing && AllInBounds(s, fires)
    ensures Follows(s, Exec(s, a), l, fires, ActWaits(s, a, l, fires), 0)
    decreases a, 0
  {
    hide Inv, Follows, AddListener, RemoveOne, RemoveType, RemoveAll, Turns, TurnsWaits, Registered, InBounds, Distinct;
    InvParts(s);
    match a
    case On(t, fn, ctx, once) =>
      AddListenerAdds(s, t, fn, ctx, once);
      if Exec(s, a) != s {
        AddFollows(s, Exec(s, a), t, l, fires);
      } else {
        Unchanged(s, l, fires);
      }
    case OffOne(t, fn, ctx) => OffOneFollows(s, t, fn, ctx, l, fires);
    case OffType(t) => OffTypeFollows(s, t, l, fires);
    case OffAll => OffAllFollows(s, l, fires);
    case Fire(t, hs) =>
      if Registered(s, t) == [] {
        Unchanged(s, l, fires);
      } else {
        FireStarts(s, t);
        var s1, list, r := s.(firing := s.firing + 1), s.events[t], |Registered(s, t)|;
        SameBounds(s, s1, fires);
        assert s1.arrays[list][0..r] == Registered(s, t) by {
          assert s.arrays[list][0..r] == s.arrays[list];
        }
        RegisteredDistinct(s, t);
        TurnsFollow(s1, t, list, 0, r, hs, l, fires);
        TurnsKeep(s1, t, list, 0, r, hs);
        if l in s.cleared && l in Registered(s, t) {
          RegisteredIsLive(s, t, l);
        }
        FireFollows(s, s1, Turns(s1, t, list, 0, r, hs), Exec(s, a), l, fires,
                    ActWaits(s, a, l, fires), Running(list, 0, r));
      }
  }

  lemma SameBounds(s: State, s': State, fires: seq<Running>)
    requires AllInBounds(s, fires) && s'.arrays == s.arrays
    ensures AllInBounds(s', fires)
  {
  }

  lemma RegisteredDistinct(s: State, t: EventType)
    requires Tables(s)
    ensures Distinct(Registered(s, t))
  {
    assert NoDuplicates(s, Registered(s, t));
  }

  lemma FireFollows(s: State, s1: State, s2: State, s': State, l: nat, fires: seq<Running>, waits: seq<nat>, f: Running)
    requires s1 == s.(firing := s.firing + 1) && s2.firing > 0 && s' == s2.(firing := s2.firing - 1)
    requires Follows(s1, s2, l, fires, waits, Due(s1, f, l))
    requires l in s.cleared ==> !Awaits(s1, f, l)
    ensures Follows(s, s', l, fires, waits, 0)
  {
    SameArrays(s2, s', fires, l);
    hide Awaiting, Invocations, Awaits;
  }

  lemma {:induction false} RunFollows(s: State, script: Script, l: nat, fires: seq<Running>)
    requires Inv(s) && ProperScript(script) && Apart(s, l) && |fires| == s.firing && AllInBounds(s, fires)
    ensures Follows(s, Run(s, script), l, fires, RunWaits(s, script, l, fires), 0)
    decreases script, 0
  {
    hide Inv, Follows, Later, Exec, ActWaits, InBounds;
    match script
    case Done => Unchanged(s, l, fires);
    case Then(a, rest) =>
      var m := Exec(s, a);
      ExecKeeps(s, a);
      ExecFollows(s, a, l, fires);
      NothingAwaited(s, m, fires, l);
      StaysApart(s, m, l, fires, ActWaits(s, a, l, fires), 0);
      RunKeeps(m, rest);
      RunFollows(m, rest, l, fires);
      NothingAwaited(m, Run(m, rest), fires, l);
      FollowsOn(s, m, Run(s, script), l, fires, ActWaits(s, a, l, fires), RunWaits(m, rest, l, fires));
  }

  lemma {:induction false} TurnsFollow(s: State, t: EventType, list: nat, k: nat, r: nat, hs: Handlers, l: nat,
                                       fires: seq<Running>)
    requires Inv(s) && ProperHandlers(hs) && k <= r && Snapshot(s, t, list, k, r) && Distinct(s.arrays[list][k..r])
    requires Apart(s, l) && |fires| + 1 == s.firing && AllInBounds(s, fires)
    ensures Follows(s, Turns(s, t, list, k, r, hs), l, fires, TurnsWaits(s, t, list, k, r, hs, l, fires),
                    Due(s, Running(list, k, r), l))
    decreases hs, r - k
  {
    hide Inv, Follows, Later, Turns, BeginTurn, OneTurn, Run, RunWaits, Awaiting, InBounds, Distinct, Due;
    var f := Running(list, k, r);
    InvParts(s);
    if k < r {
      var a, next := s.arrays[list][k], Running(list, k + 1, r);
      assert InStep(s, a);
      OneTurnIsKept(s, t, list, k, r, hs);
      var s2 := OneTurn(s, t, a, hs);
      var s' := Turns(s2, t, list, k + 1, r, RestOf(hs));
      NextIsDistinct(s, s2, list, k, r);
      LaterGrows(s, s2);
      AwaitingLater(s, s2, fires, l);
      OneTurnFollows(s, t, list, k, r, hs, l, fires);
      StaysApart(s, s2, l, fires + [next], HandlerWaits(s, t, list, k, r, hs, l, fires), if a == l then 1 else 0);
      TurnsFollow(s2, t, list, k + 1, r, RestOf(hs), l, fires);
      TurnsKeep(s2, t, list, k + 1, r, RestOf(hs));
      LaterGrows(s2, s');
      AwaitingLater(s2, s', fires, l);
      AwaitingOneMore(s2, fires, next, l);
      DueNext(s, s2, list, k, r, l);
      TurnsFollowOn(s, s2, s', l, fires, next, HandlerWaits(s, t, list, k, r, hs, l, fires),
                    TurnsWaits(s2, t, list, k + 1, r, RestOf(hs), l, fires), if a == l then 1 else 0, Due(s2, next, l));
      TurnWaits(s, t, list, k, r, hs, l, fires);
    } else {
      TurnsDone(s, t, list, k, r, hs);
      NothingDue(s, f, l);
      Unchanged(s, l, fires);
    }
  }

  lemma TurnWaits(s: State, t: EventType, list: nat, k: nat, r: nat, hs: Handlers, l: nat, fires: seq<Running>)
    requires k < r && list < |s.arrays| && r <= |s.arrays[list]| && s.arrays[list][k] < |s.cells|
    ensures TurnsWaits(s, t, list, k, r, hs, l, fires)
         == HandlerWaits(s, t, list, k, r, hs, l, fires)
            + TurnsWaits(OneTurn(s, t, s.arrays[list][k], hs), t, list, k + 1, r, RestOf(hs), l, fires)
  {
  }

  lemma NothingDue(s: State, f: Running, l: nat)
    requires f.next == f.end
    ensures Due(s, f, l) == 0
  {
  }

  lemma NextIsDistinct(s: State, s2: State, list: nat, k: nat, r: nat)
    requires k < r && list < |s.arrays| && r <= |s.arrays[list]| && list < |s2.arrays| && r <= |s2.arrays[list]|
    requires Distinct(s.arrays[list][k..r]) && forall i | 0 <= i < r :: s2.arrays[list][i] == s.arrays[list][i]
    ensures Distinct(s2.arrays[list][k + 1..r])
  {
    var before, after := s.arrays[list][k..r], s2.arrays[list][k + 1..r];
    forall i, j | 0 <= i < j < |after| ensures after[i] != after[j] {
      assert after[i] == before[i + 1] && after[j] == before[j + 1];
    }
  }

  /** A fire awaits the listener of its next turn, and those it awaits after it. */
  lemma DueNext(s: State, s2: State, list: nat, k: nat, r: nat, l: nat)
    requires k < r && list < |s.arrays| && r <= |s.arrays[list]| && list < |s2.arrays| && r <= |s2.arrays[list]|
    requires Distinct(s.arrays[list][k..r]) && forall i | 0 <= i < r :: s2.arrays[list][i] == s.arrays[list][i]
    ensures Due(s, Running(list, k, r), l)
         == (if s.arrays[list][k] == l then 1 else 0) + Due(s2, Running(list, k + 1, r), l)
  {
    var before, after := s.arrays[list][k..r], s2.arrays[list][k + 1..r];
    assert before == [s.arrays[list][k]] + after;
    assert l in before <==> before[0] == l || l in after;
    forall j | 0 <= j < |after| ensures after[j] != before[0] {
      assert after[j] == before[j + 1];
    }
  }

  lemma StaysApart(s: State, s': State, l: nat, fires: seq<Running>, waits: seq<nat>, due: nat)
    requires Follows(s, s', l, fires, waits, due)
    ensures Apart(s', l)
  {
  }

  /** A turn and then the rest of the loop, seen from around the loop. */
  lemma TurnsFollowOn(s: State, m: State, s': State, l: nat, fires: seq<Running>, next: Running,
                      before: seq<nat>, after: seq<nat>, now: nat, later: nat)
    requires Follows(s, m, l, fires + [next], before, now) && Follows(m, s', l, fires, after, later)
    requires Awaiting(m, fires + [next], l) == Awaiting(m, fires, l) + later
    requires Awaiting(s', fires, l) == Awaiting(m, fires, l)
    ensures Follows(s, s', l, fires, before + after, now + later)
  {
    hide Awaiting, Invocations;
    assert IsOnce(s', l) ==> IsOnce(m, l);
    assert before + [] == before && [] + after == after;
  }

  /** The turn of the listener itself calls it if it was cleared. */
  lemma BeginTurnFollows(s: State, t: EventType, a: nat, l: nat, fires: seq<Running>)
    requires Inv(s) && s.firing > 0 && InStep(s, a) && s.cells[a].etype == t && Apart(s, l)
    ensures Follows(s, BeginTurn(s, t, a), l, fires, [], if a == l then 1 else 0)
    ensures BeginTurn(s, t, a).cleared == s.cleared
  {
    hide Tables, Shape, Registered, RemoveEach, Words, OnceAtMost, Index, Awaiting, Distinct;
    var c := s.cells[a];
    var s1 := if c.once then RemoveEach(s, Words(t), c.fn, c.ctx) else s;
    if c.once {
      OffEachFollows(s, Words(t), c.fn, c.ctx, l, fires);
      OffEachKeeps(s, Words(t), c.fn, c.ctx);
    } else {
      Unchanged(s, l, fires);
    }
    InvocationsNext(s1.log, Entry(s, a), l);
    hide Invocations;
  }

  lemma {:induction false} OffEachFollows(s: State, words: seq<EventType>, fn: Fn, ctx: Context, l: nat, fires: seq<Running>)
    requires Inv(s) && Apart(s, l)
    ensures Follows(s, RemoveEach(s, words, fn, ctx), l, fires, [], 0)
    decreases |words|
  {
    hide Inv, Follows, RemoveOne;
    if words == [] {
      Unchanged(s, l, fires);
    } else {
      var n := |words| - 1;
      var m := RemoveEach(s, words[..n], fn, ctx);
      OffEachFollows(s, words[..n], fn, ctx, l, fires);
      OffEachKeeps(s, words[..n], fn, ctx);
      StaysApart(s, m, l, fires, [], 0);
      OffOneFollows(m, words[n], fn, ctx, l, fires);
      OffThenOff(s, m, RemoveOne(m, words[n], fn, ctx), l, fires);
    }
  }

  lemma OffThenOff(s: State, m: State, s': State, l: nat, fires: seq<Running>)
    requires Follows(s, m, l, fires, [], 0) && Follows(m, s', l, fires, [], 0)
    ensures Follows(s, s', l, fires, [], 0)
  {
    hide Awaiting, Invocations;
    assert IsOnce(s', l) ==> IsOnce(m, l);
  }

  lemma OneTurnFollows(s: State, t: EventType, list: nat, k: nat, r: nat, hs: Handlers, l: nat, fires: seq<Running>)
    requires Inv(s) && ProperHandlers(hs) && k < r && Snapshot(s, t, list, k, r)
    requires Apart(s, l) && |fires| + 1 == s.firing && AllInBounds(s, fires)
    ensures Follows(s, OneTurn(s, t, s.arrays[list][k], hs), l, fires + [Running(list, k + 1, r)],
                    HandlerWaits(s, t, list, k, r, hs, l, fires), if s.arrays[list][k] == l then 1 else 0)
    decreases hs, 0
  {
    hide Inv, Follows, Later, BeginTurn, Run, RunWaits, InBounds;
    var a, around := s.arrays[list][k], fires + [Running(list, k + 1, r)];
    assert InStep(s, a);
    var s1 := BeginTurn(s, t, a);
    BeginTurnKeeps(s, t, a);
    BeginTurnFollows(s, t, a, l, around);
    if hs.Handler? && s.cells[a].fn != NOOP {
      LaterGrows(s, s1);
      BoundsAround(s, s1, fires, Running(list, k + 1, r));
      StaysApart(s, s1, l, around, [], if a == l then 1 else 0);
      RunFollows(s1, hs.script, l, around);
      RunKeeps(s1, hs.script);
      NothingAwaited(s1, Run(s1, hs.script), around, l);
      TurnThenHandler(s, s1, Run(s1, hs.script), l, around, RunWaits(s1, hs.script, l, around), if a == l then 1 else 0);
    }
  }

  lemma BoundsAround(s: State, s1: State, fires: seq<Running>, f: Running)
    requires AllInBounds(s, fires) && InBounds(s, f) && Grown(s, s1)
    ensures AllInBounds(s1, fires + [f])
  {
    forall i | 0 <= i < |fires + [f]| ensures InBounds(s1, (fires + [f])[i]) {
      AwaitsLater(s, s1, if i < |fires| then fires[i] else f, 0);
    }
  }

  lemma TurnThenHandler(s: State, m: State, s': State, l: nat, fires: seq<Running>, waits: seq<nat>, now: nat)
    requires Follows(s, m, l, fires, [], now) && Follows(m, s', l, fires, waits, 0)
    requires Awaiting(s', fires, l) == Awaiting(m, fires, l)
    requires l in m.cleared ==> l in s.cleared
    ensures Follows(s, s', l, fires, waits, now)
  {
    hide Awaiting, Invocations;
    assert IsOnce(s', l) ==> IsOnce(m, l);
  }

  // The law.

  /**
   * A `once` listener of a single word is called more than once exactly when an `off` without arguments took it off
   * while at least two running fires had yet to reach it; each of those then calls it.
   */
  lemma CalledTwiceExactlyWhen(script: Script, l: nat)
    requires ProperScript(script)
    requires var cells := Run(EMPTY, script).cells; l < |cells| && cells[l].once && IsWord(cells[l].etype)
    ensures var s, waits := Run(EMPTY, script), RunWaits(EMPTY, script, l, []);
            && (Invocations(s.log, l) > 1 <==> exists w :: w in waits && w >= 2)
            && waits == if l in s.cleared then [Invocations(s.log, l)] else []
  {
    hide Inv, Run, RunWaits, Invocations;
    EmptyIsSound();
    RunFollows(EMPTY, script, l, []);
    EveryRunIsSound(script);
    var s, waits := Run(EMPTY, script), RunWaits(EMPTY, script, l, []);
    assert IsOnce(s, l) && Fate(EMPTY, s, l, [], waits, 0);
    if l in s.cleared {
      assert waits == [Invocations(s.log, l)];
      assert waits[0] in waits;
    } else {
      assert waits == [];
      assert Invocations(s.log, l) <= 1;
    }
  }

  // What a caller can see to

  /** With `depth` fires running around it, an `off` without arguments happens with at most `most` of them. */
  predicate ClearsWithin(script: Script, depth: nat, most: nat) {
    match script
    case Done => true
    case Then(a, rest) => ActClearsWithin(a, depth, most) && ClearsWithin(rest, depth, most)
  }

  predicate ActClearsWithin(a: Act, depth: nat, most: nat) {
    match a
    case OffAll => depth <= most
    case Fire(_, hs) => HandlersClearWithin(hs, depth + 1, most)
    case _ => true
  }

  predicate HandlersClearWithin(hs: Handlers, depth: nat, most: nat) {
    match hs
    case NoMore => true
    case Handler(script, rest) => ClearsWithin(script, depth, most) && HandlersClearWithin(rest, depth, most)
  }

  lemma {:induction false} AwaitingAtMost(s: State, fires: seq<Running>, l: nat)
    ensures Awaiting(s, fires, l) <= |fires|
  {
    if fires != [] {
      AwaitingAtMost(s, fires[..|fires| - 1], l);
    }
  }

  lemma {:induction false} ActWaitsAtMost(s: State, a: Act, l: nat, fires: seq<Running>, most: nat)
    requires ActClearsWithin(a, |fires|, most)
    ensures forall w :: w in ActWaits(s, a, l, fires) ==> w <= most
    decreases a, 0
  {
    match a
    case OffAll => AwaitingAtMost(s, fires, l);
    case Fire(t, hs) =>
      if Registered(s, t) != [] {
        TurnsWaitAtMost(s.(firing := s.firing + 1), t, s.events[t], 0, |Registered(s, t)|, hs, l, fires, most);
      }
    case _ =>
  }

  lemma {:induction false} RunWaitsAtMost(s: State, script: Script, l: nat, fires: seq<Running>, most: nat)
    requires ClearsWithin(script, |fires|, most)
    ensures forall w :: w in RunWaits(s, script, l, fires) ==> w <= most
    decreases script, 0
  {
    hide ActWaits, Exec;
    if script.Then? {
      ActWaitsAtMost(s, script.act, l, fires, most);
      RunWaitsAtMost(Exec(s, script.act), script.rest, l, fires, most);
    }
  }

  lemma {:induction false} TurnsWaitAtMost(s: State, t: EventType, list: nat, k: nat, r: nat, hs: Handlers, l: nat,
                                           fires: seq<Running>, most: nat)
    requires HandlersClearWithin(hs, |fires| + 1, most)
    ensures forall w :: w in TurnsWaits(s, t, list, k, r, hs, l, fires) ==> w <= most
    decreases hs, r - k
  {
    hide RunWaits, OneTurn, BeginTurn;
    if k < r && list < |s.arrays| && k < |s.arrays[list]| && s.arrays[list][k] < |s.cells| {
      var a := s.arrays[list][k];
      if hs.Handler? {
        RunWaitsAtMost(BeginTurn(s, t, a), hs.script, l, fires + [Running(list, k + 1, r)], most);
      }
      TurnsWaitAtMost(OneTurn(s, t, a, hs), t, list, k + 1, r, RestOf(hs), l, fires, most);
      assert forall w :: w in HandlerWaits(s, t, list, k, r, hs, l, fires) ==> w <= most;
    }
  }

  /** Such a listener is called at most as often as fires run when an `off` without arguments happens, or once. */
  lemma CallsWithinDepth(script: Script, most: nat, l: nat)
    requires ProperScript(script) && ClearsWithin(script, 0, most)
    requires var cells := Run(EMPTY, script).cells; l < |cells| && cells[l].once && IsWord(cells[l].etype)
    ensures Invocations(Run(EMPTY, script).log, l) <= if most > 1 then most else 1
  {
    hide Run, RunWaits, Invocations;
    CalledTwiceExactlyWhen(script, l);
    RunWaitsAtMost(EMPTY, script, l, [], most);
  }

  /** As long as an `off` without arguments happens with at most one fire running, `once` means once for single words. */
  lemma OnceMeansOnce(script: Script)
    requires ProperScript(script) && ClearsWithin(script, 0, 1)
    ensures var s := Run(EMPTY, script);
            forall l: nat | l < |s.cells| && s.cells[l].once && IsWord(s.cells[l].etype) :: Invocations(s.log, l) <= 1
  {
    hide Run, Invocations, IsWord;
    var s := Run(EMPTY, script);
    forall l: nat | l < |s.cells| && s.cells[l].once && IsWord(s.cells[l].etype)
      ensures Invocations(s.log, l) <= 1
    {
      CallsWithinDepth(script, 1, l);
    }
  }

  /** One is the most: with two fires running, a listener can be called twice. */
  lemma OneFireIsTheMost()
    ensures ProperScript(CLEARING) && ClearsWithin(CLEARING, 0, 2) && !ClearsWithin(CLEARING, 0, 1)
    ensures Invocations(Run(EMPTY, CLEARING).log, 1) == 2 && Run(EMPTY, CLEARING).cells == [PLAIN, ONCE]
  {
    hide Run, Invocations;
    ClearedOnceListenerRunsTwice();
    assert ClearsWithin(Then(OffAll, Done), 2, 2) && !ClearsWithin(Then(OffAll, Done), 2, 1);
    assert HandlersClearWithin(INNER, 2, 2) && !HandlersClearWithin(INNER, 2, 1);
    assert HandlersClearWithin(OUTER, 1, 2) && !HandlersClearWithin(OUTER, 1, 1) by {
      assert ClearsWithin(Then(Fire(CLICK, INNER), Done), 1, 2) && !ClearsWithin(Then(Fire(CLICK, INNER), Done), 1, 1);
    }
    assert ClearsWithin(Then(Fire(CLICK, OUTER), Done), 0, 2) && !ClearsWithin(Then(Fire(CLICK, OUTER), Done), 0, 1);
  }
}
