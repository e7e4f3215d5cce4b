/** The event methods as they run: one object whose tables are updated step by step, proved against the operations of `Events`. */
module EventedObject {
  import opened Events
  import opened EventTypes

  class Evented {
    var cells: seq<Listener>
    var arrays: seq<seq<nat>>
    var events: map<EventType, nat>
    var firing: nat
    ghost var log: seq<Turn>
    ghost var removed: set<nat>
    ghost var cleared: set<nat>

    ghost function Now(): State
      reads this
    {
      State(cells, arrays, events, firing, log, removed, cleared)
    }

    constructor ()
      ensures Now() == EMPTY
    {
      cells, arrays, events, firing, log, removed, cleared := [], [], map[], 0, [], {}, {};
    }

    /** The index of the listener with this function and context, or the number of listeners. */
    method Listens(ls: seq<nat>, fn: Fn, ctx: Context) returns (o: nat)
      requires forall k | 0 <= k < |ls| :: ls[k] < |cells|
      ensures o == Index(Now(), ls, fn, Normal(ctx))
    {
      var ctx' := if ctx == This then Undefined else ctx;
      o := 0;
      while o < |ls|
        invariant 0 <= o <= |ls|
        invariant forall j | 0 <= j < o :: !Matches(Now(), ls[j], fn, Normal(ctx))
      {
        if cells[ls[o]].fn == fn && cells[ls[o]].ctx == ctx' {
          return;
        }
        o := o + 1;
      }
    }

    method AddEvent(t: EventType, fn: Fn, ctx: Context, once: bool)
      requires Inv(Now())
      modifies this
      ensures Registers(old(Now()), Now(), t, fn, ctx, once)
      ensures Now() == AddListener(old(Now()), t, fn, ctx, once)
    {
      hide Registers, Inv, Index, Matches;
      InvParts(Now());
      OnRegistersExactlyWhen(Now(), t, fn, ctx, once);
      if t in events {
        ArrayOf(Now(), t);
      }
      var ls := if t in events then arrays[events[t]] else [];
      var o := Listens(ls, fn, ctx);
      if o == |ls| {
        var l := |cells|;
        cells := cells + [Listener(fn, if ctx == This then Undefined else ctx, once, t)];
        if t !in events {
          events := events[t := |arrays|];
          arrays := arrays + [[]];
        }
        arrays := arrays[events[t] := arrays[events[t]] + [l]];
        assert t !in old(events) ==> arrays[|old(arrays)|] == [l] && arrays == old(arrays) + [[l]];
      }
    }

    method OffEvent(t: EventType, fn: Fn, ctx: Context)
      requires Inv(Now())
      modifies this
      ensures Now() == RemoveOne(old(Now()), t, fn, ctx)
    {
      hide Inv, Shape, Index, Matches, RemoveOne, Registered;
      InvParts(Now());
      if t in events {
        ArrayOf(Now(), t);
        var ls := arrays[events[t]];
        var o := Listens(ls, fn, ctx);
        if o < |ls| {
          var l, rest := ls[o], ls[..o] + ls[o + 1..];
          RemoveOneFound(Now(), t, fn, ctx, o, rest);
          if firing > 0 {
            cells := cells[l := cells[l].(fn := NOOP)];
            events := events[t := |arrays|];
            arrays := arrays + [ls];
          }
          arrays := arrays[events[t] := rest];
          removed := removed + {l};
          assert firing > 0 ==> arrays == old(arrays) + [rest];
        } else {
          RemoveOneNot(Now(), t, fn, ctx);
        }
      } else {
        RemoveOneNot(Now(), t, fn, ctx);
      }
    }

    /** `off` with a function: `_off` for each word of the text. */
    method Off(t: EventType, fn: Fn, ctx: Context)
      requires Inv(Now())
      modifies this
      ensures Now() == RemoveEach(old(Now()), Words(t), fn, ctx)
    {
      hide Inv, Later, RemoveOne, Words;
      var words := Words(t);
      ghost var was := Now();
      for s := 0 to |words|
        invariant Now() == RemoveEach(was, words[..s], fn, ctx)
      {
        OffEachKeeps(was, words[..s], fn, ctx);
        OffEvent(words[s], fn, ctx);
        assert words[..s + 1][..s] == words[..s];
      }
      assert words[..|words|] == words;
    }

    method OffEvents(t: EventType)
      requires Inv(Now())
      modifies this
      ensures Now() == RemoveType(old(Now()), t)
    {
      if t in events {
        var ls := arrays[events[t]];
        ghost var was := Now();
        if firing > 0 {
          for o := 0 to |ls|
            invariant Now() == was.(cells := cells) && |cells| == |was.cells|
            invariant forall l | 0 <= l < |cells| :: cells[l] == if l in ls[..o] then was.cells[l].(fn := NOOP) else was.cells[l]
          {
            assert ls[..o + 1] == ls[..o] + [ls[o]];
            cells := cells[ls[o] := cells[ls[o]].(fn := NOOP)];
          }
          assert ls[..|ls|] == ls;
        }
        events := events - {t};
        removed := removed + set l | l in ls;
        SilenceAllChanges(was.(events := events, removed := removed), ls);
      }
    }

    method OffEverything()
      modifies this
      ensures Now() == RemoveAll(old(Now()))
    {
      ghost var gone := set t, l | t in events && l in Registered(Now(), t) :: l;
      if firing > 0 {
        cleared := cleared + gone;
      } else {
        removed := removed + gone;
      }
      events := map[];
    }

    method FireEvent(t: EventType, handlers: Handlers)
      requires Inv(Now()) && ProperHandlers(handlers)
      modifies this
      ensures Now() == Exec(old(Now()), Fire(t, handlers))
      decreases handlers, 2
    {
      hide Inv, Later, Turns, OneTurn, Snapshot, InStep, Shape, Tables, Registered, Exec;
      InvParts(Now());
      FireIs(Now(), t, handlers);
      if t in events {
        ArrayOf(Now(), t);
        if |arrays[events[t]]| > 0 {
          var o := events[t];
          ghost var was := Now();
          FireStarts(was, t);
          firing := firing + 1;
          var hs, s, r := handlers, 0, |arrays[o]|;
          while s < r
            invariant Inv(Now()) && firing > 0 && ProperHandlers(hs) && s <= r && Snapshot(Now(), t, o, s, r)
            invariant Turns(Now(), t, o, s, r, hs) == Turns(was.(firing := was.firing + 1), t, o, 0, r, handlers)
            invariant handlers == hs || hs < handlers
          {
            ghost var before := Now();
            SnapshotAt(before, t, o, s, r);
            OneTurnIsKept(before, t, o, s, r, hs);
            FireTurn(t, arrays[o][s], hs);
            hs := if hs.Handler? then hs.rest else hs;
            s := s + 1;
          }
          TurnsDone(Now(), t, o, s, r, hs);
          firing := firing - 1;
        }
      } else {
        NothingRegistered(Now(), t);
      }
    }

    /** The body of the loop: a `once` listener is taken off, then its function is called. */
    method FireTurn(t: EventType, l: nat, hs: Handlers)
      requires Inv(Now()) && firing > 0 && InStep(Now(), l) && cells[l].etype == t && ProperHandlers(hs)
      modifies this
      ensures Now() == OneTurn(old(Now()), t, l, hs)
      decreases hs, 1
    {
      hide Inv, Later, RemoveEach, Words, Run;
      ghost var before := Now();
      var a := cells[l];
      if a.once {
        Off(t, a.fn, a.ctx);
      }
      log := log + [Entry(before, l)];
      BeginTurnKeeps(before, t, l);
      if a.fn != NOOP && hs.Handler? {
        RunScript(hs.script);
      }
    }

    method RunScript(script: Script)
      requires Inv(Now()) && ProperScript(script)
      modifies this
      ensures Now() == Run(old(Now()), script)
      decreases script, 0
    {
      hide Inv, Later, Exec;
      match script
      case Done =>
      case Then(a, rest) =>
        ExecKeeps(Now(), a);
        ExecIs(Now(), a);
        match a {
          case On(t, fn, ctx, once) => AddEvent(t, fn, ctx, once);
          case OffOne(t, fn, ctx) => OffEvent(t, fn, ctx);
          case OffType(t) => OffEvents(t);
          case OffAll => OffEverything();
          case Fire(t, handlers) => FireEvent(t, handlers);
        }
        RunScript(rest);
    }
  }
}
