/** Event dispatch: listeners that may add, remove and fire while they are being called. */
module Events {
  import opened EventTypes

  type Fn = int

  /** The no-op that replaces the function of a listener removed while events are being fired. */
  const NOOP: Fn := 0

  datatype Context = Undefined | This | Object(id: int)

  /** `etype` is history: the event type the listener was registered for. */
  datatype Listener = Listener(fn: Fn, ctx: Context, once: bool, etype: EventType)

  /** History of one turn of a fire: at nesting depth `depth`, the function called, and whether the listener was already removed. */
  datatype Turn = Turn(depth: nat, listener: nat, fn: Fn, removed: bool)

  /** Listener objects and listener arrays by their identity, the `_events` table, and the `_firingCount`.
      `log`, `removed` and `cleared` are history: `cleared` has what an `off` without arguments took off during a fire. */
  datatype State = State(cells: seq<Listener>, arrays: seq<seq<nat>>, events: map<EventType, nat>, firing: nat,
                         log: seq<Turn>, removed: set<nat>, cleared: set<nat>)

  const EMPTY := State([], [], map[], 0, [], {}, {})

  /** What a handler does when it is called: any finite sequence of actions, firing included.
      A fire carries what the handlers of its turns do, so that every terminating behaviour is some script.
      A text of several words given to `on`, `once` or `off` is an action for each word; the keys of an object are
      taken as they are. */
  datatype Script = Done | Then(act: Act, rest: Script)
  datatype Handlers = NoMore | Handler(script: Script, rest: Handlers)
  datatype Act =
    | On(t: EventType, fn: Fn, ctx: Context, once: bool)
    | OffOne(t: EventType, fn: Fn, ctx: Context)
    | OffType(t: EventType)
    | OffAll
    | Fire(t: EventType, handlers: Handlers)

  // No listener is the no-op itself.

  predicate ProperAct(a: Act) {
    match a
    case On(_, fn, _, _) => fn != NOOP
    case Fire(_, hs) => ProperHandlers(hs)
    case _ => true
  }

  predicate ProperScript(script: Script) {
    match script
    case Done => true
    case Then(a, rest) => ProperAct(a) && ProperScript(rest)
  }

  predicate ProperHandlers(hs: Handlers) {
    match hs
    case NoMore => true
    case Handler(script, rest) => ProperScript(script) && ProperHandlers(rest)
  }

  // What the operations do to the state.

  /** The listeners of a type, in order. */
  function Registered(s: State, t: EventType): seq<nat> {
    if t in s.events && s.events[t] < |s.arrays| then s.arrays[s.events[t]] else []
  }

  function Normal(ctx: Context): Context {
    if ctx == This then Undefined else ctx
  }

  predicate Matches(s: State, l: nat, fn: Fn, ctx: Context) {
    l < |s.cells| && s.cells[l].fn == fn && s.cells[l].ctx == ctx
  }

  /** `_listens`: the first index of the listener with this function and context. */
  function Index(s: State, ls: seq<nat>, fn: Fn, ctx: Context): (i: nat)
    ensures i <= |ls|
    ensures i < |ls| ==> Matches(s, ls[i], fn, ctx)
    ensures forall j | 0 <= j < i :: !Matches(s, ls[j], fn, ctx)
  {
    if ls == [] || Matches(s, ls[0], fn, ctx) then 0 else 1 + Index(s, ls[1..], fn, ctx)
  }

  function AddListener(s: State, t: EventType, fn: Fn, ctx: Context, once: bool): State {
    var ls := Registered(s, t);
    if Index(s, ls, fn, Normal(ctx)) < |ls| then s
    else
      var l := |s.cells|;
      var s1 := s.(cells := s.cells + [Listener(fn, Normal(ctx), once, t)]);
      if t in s.events && s.events[t] < |s.arrays| then
        s1.(arrays := s.arrays[s.events[t] := ls + [l]])
      else
        s1.(arrays := s.arrays + [[l]], events := s.events[t := |s.arrays|])
  }

  function Silence(s: State, l: nat): State {
    if l < |s.cells| then s.(cells := s.cells[l := s.cells[l].(fn := NOOP)]) else s
  }

  function SilenceAll(s: State, ls: seq<nat>): State
    decreases |ls|
  {
    if ls == [] then s else SilenceAll(Silence(s, ls[0]), ls[1..])
  }

  /** Removes one listener: in place, or while firing in a copy, with the listener silenced. */
  function RemoveOne(s: State, t: EventType, fn: Fn, ctx: Context): State {
    var ls := Registered(s, t);
    var i := Index(s, ls, fn, Normal(ctx));
    if i == |ls| then s
    else
      var rest, s1 := ls[..i] + ls[i + 1..], s.(removed := s.removed + {ls[i]});
      if s.firing > 0 then
        Silence(s1, ls[i]).(arrays := s.arrays + [rest], events := s.events[t := |s.arrays|])
      else
        s1.(arrays := s.arrays[s.events[t] := rest])
  }

  /** `off` with the words of a text. */
  function RemoveEach(s: State, words: seq<EventType>, fn: Fn, ctx: Context): State {
    if words == [] then s
    else RemoveOne(RemoveEach(s, words[..|words| - 1], fn, ctx), words[|words| - 1], fn, ctx)
  }

  /** Removes the listeners of a type; while firing they are silenced. */
  function RemoveType(s: State, t: EventType): State {
    if t !in s.events then s
    else
      var ls := Registered(s, t);
      var s1 := s.(events := s.events - {t}, removed := s.removed + set l | l in ls);
      if s.firing > 0 then SilenceAll(s1, ls) else s1
  }

  /** Drops the table; nothing is silenced, which matters while firing. */
  function RemoveAll(s: State): State {
    var gone := set t, l | t in s.events && l in Registered(s, t) :: l;
    if s.firing > 0 then s.(events := map[], cleared := s.cleared + gone)
    else s.(events := map[], removed := s.removed + gone)
  }

  function Exec(s: State, a: Act): State
    decreases a
  {
    match a
    case On(t, fn, ctx, once) => AddListener(s, t, fn, ctx, once)
    case OffOne(t, fn, ctx) => RemoveOne(s, t, fn, ctx)
    case OffType(t) => RemoveType(s, t)
    case OffAll => RemoveAll(s)
    case Fire(t, hs) =>
      if Registered(s, t) == [] then s
      else
        var s1 := Turns(s.(firing := s.firing + 1), t, s.events[t], 0, |Registered(s, t)|, hs);
        s1.(firing := if s1.firing > 0 then s1.firing - 1 else 0)
  }

  function Run(s: State, script: Script): State
    decreases script
  {
    match script
    case Done => s
    case Then(a, rest) => Run(Exec(s, a), rest)
  }

  /** The loop of `fire`: turns `k` to `r` over the array `list`, whatever it holds at each turn. */
  function Turns(s: State, t: EventType, list: nat, k: nat, r: nat, hs: Handlers): State
    decreases hs, r - k
  {
    if k >= r || list >= |s.arrays| || k >= |s.arrays[list]| || s.arrays[list][k] >= |s.cells| then s
    else
      var l := s.arrays[list][k];
      var s1 := BeginTurn(s, t, l);
      match hs
      case NoMore => Turns(s1, t, list, k + 1, r, hs)
      case Handler(script, rest) =>
        Turns(if s.cells[l].fn == NOOP then s1 else Run(s1, script), t, list, k + 1, r, rest)
  }

  /** A turn up to the call of the handler: a `once` listener is taken off first, from the words of the type. */
  function BeginTurn(s: State, t: EventType, l: nat): State
    requires l < |s.cells|
  {
    var a := s.cells[l];
    var s1 := if a.once then RemoveEach(s, Words(t), a.fn, a.ctx) else s;
    s1.(log := s1.log + [Turn(s.firing, l, a.fn, l in s.removed)])
  }

  // Invariants of every reachable state.

  /** How often a listener's own function has been called. */
  function Invocations(log: seq<Turn>, l: nat): nat {
    if log == [] then 0
    else
      var e := log[|log| - 1];
      Invocations(log[..|log| - 1], l) + if e.listener == l && e.fn != NOOP then 1 else 0
  }

  ghost predicate Shape(s: State) {
    && (forall t | t in s.events :: s.events[t] < |s.arrays|)
    && (forall t1, t2 | t1 in s.events && t2 in s.events && t1 != t2 :: s.events[t1] != s.events[t2])
    && (forall a, k | 0 <= a < |s.arrays| && 0 <= k < |s.arrays[a]| :: s.arrays[a][k] < |s.cells|)
    && (forall l | l in s.removed || l in s.cleared :: l < |s.cells|)
    && (forall l | 0 <= l < |s.cells| :: s.cells[l].ctx != This)
  }

  ghost predicate Live(s: State, t: EventType, l: nat) {
    && l < |s.cells| && s.cells[l].etype == t && s.cells[l].fn != NOOP && s.cells[l].ctx != This
    && l !in s.removed && l !in s.cleared
  }

  ghost predicate AllLive(s: State, t: EventType, ls: seq<nat>) {
    forall k | 0 <= k < |ls| :: Live(s, t, ls[k])
  }

  ghost predicate Distinct(ls: seq<nat>) {
    forall i, j | 0 <= i < j < |ls| :: ls[i] != ls[j]
  }

  ghost predicate Differ(s: State, l1: nat, l2: nat) {
    l1 < |s.cells| && l2 < |s.cells| && (s.cells[l1].fn != s.cells[l2].fn || s.cells[l1].ctx != s.cells[l2].ctx)
  }

  /** No listener twice, and no (function, context) pair twice. */
  ghost predicate NoDuplicates(s: State, ls: seq<nat>) {
    Distinct(ls) && forall l1, l2 | l1 in ls && l2 in ls && l1 != l2 :: Differ(s, l1, l2)
  }

  ghost predicate Tables(s: State) {
    forall t :: AllLive(s, t, Registered(s, t)) && NoDuplicates(s, Registered(s, t))
  }

  /** Every listener ever made is registered, or was removed, or was cleared. */
  ghost predicate Accounted(s: State) {
    forall l: nat | l < |s.cells| :: l in s.removed || l in s.cleared || l in Registered(s, s.cells[l].etype)
  }

  ghost predicate SilencedAreRemoved(s: State) {
    forall l: nat | l < |s.cells| && s.cells[l].fn == NOOP :: l in s.removed
  }

  /** A `once` listener of a single word has been called at most once, and is off if it has, unless it was cleared. */
  ghost predicate OnceAtMost(s: State) {
    forall l: nat | l < |s.cells| && s.cells[l].once && IsWord(s.cells[l].etype) && l !in s.cleared ::
      Invocations(s.log, l) <= if l in s.removed then 1 else 0
  }

  /** Each turn called the listener's function exactly when the listener had not been removed. */
  ghost predicate Honest(log: seq<Turn>) {
    forall i | 0 <= i < |log| :: log[i].fn != NOOP <==> !log[i].removed
  }

  ghost predicate LogInRange(s: State) {
    forall i | 0 <= i < |s.log| :: s.log[i].listener < |s.cells|
  }

  ghost predicate Inv(s: State) {
    Shape(s) && Tables(s) && Accounted(s) && SilencedAreRemoved(s) && OnceAtMost(s) && Honest(s.log) && LogInRange(s)
  }

  /** While firing: removal and silencing go together. */
  ghost predicate InStep(s: State, l: nat) {
    l < |s.cells| && (s.cells[l].fn == NOOP <==> l in s.removed)
  }

  /** What may happen between two moments at the same nesting depth, while firing: arrays only grow, removed listeners are silenced. */
  ghost predicate Later(s: State, s': State) {
    && s'.firing == s.firing
    && |s.cells| <= |s'.cells| && |s.arrays| <= |s'.arrays|
    && (forall l | 0 <= l < |s.cells| ::
          && s'.cells[l].ctx == s.cells[l].ctx && s'.cells[l].once == s.cells[l].once && s'.cells[l].etype == s.cells[l].etype
          && (s'.cells[l].fn == s.cells[l].fn || s'.cells[l].fn == NOOP))
    && (forall a | 0 <= a < |s.arrays| :: s.arrays[a] <= s'.arrays[a])
    && (forall l: nat | InStep(s, l) :: InStep(s', l))
    && s.removed <= s'.removed && s.cleared <= s'.cleared
  }

  ghost predicate Keeps(s: State, s': State) {
    Inv(s') && s'.firing == s.firing && (s.firing > 0 ==> Later(s, s'))
  }

  lemma LaterTransitive(s: State, s': State, s'': State)
    requires Later(s, s') && Later(s', s'')
    ensures Later(s, s'')
  {
    forall a | 0 <= a < |s.arrays|
      ensures s.arrays[a] <= s''.arrays[a]
    {
      assert s.arrays[a] <= s'.arrays[a] <= s''.arrays[a];
    }
  }

  // Adding a listener keeps them.

  /** The tables of `s'` are those of `s` with one new listener at the end of type `t`. */
  ghost predicate Adds(s: State, s': State, t: EventType) {
    var l := |s.cells|;
    && |s'.cells| == l + 1 && s.cells <= s'.cells
    && s'.cells[l].etype == t && s'.cells[l].fn != NOOP && s'.cells[l].ctx != This
    && (forall k | 0 <= k < |Registered(s, t)| :: !Matches(s, Registered(s, t)[k], s'.cells[l].fn, s'.cells[l].ctx))
    && (forall t' :: Registered(s', t') == Registered(s, t') + if t' == t then [l] else [])
    && s'.removed == s.removed && s'.cleared == s.cleared && s'.log == s.log && s'.firing == s.firing
    && |s.arrays| <= |s'.arrays| && (forall a | 0 <= a < |s.arrays| :: s.arrays[a] <= s'.arrays[a])
  }

  lemma AddListenerAdds(s: State, t: EventType, fn: Fn, ctx: Context, once: bool)
    requires Shape(s) && fn != NOOP
    ensures var s' := AddListener(s, t, fn, ctx, once);
            s' == s || (Adds(s, s', t) && Shape(s'))
  {
    var s' := AddListener(s, t, fn, ctx, once);
    if s' != s {
      AddListenerShape(s, t, fn, ctx, once);
      forall t'
        ensures Registered(s', t') == Registered(s, t') + if t' == t then [|s.cells|] else []
      {
        RegisteredAfterAdd(s, t, fn, ctx, once, t');
      }
      hide Registered, Shape;
      var ls := Registered(s, t);
      assert forall k | 0 <= k < |ls| :: !Matches(s, ls[k], fn, Normal(ctx));
      assert s'.cells == s.cells + [Listener(fn, Normal(ctx), once, t)];
    }
  }

  /** What `on` and `once` do: nothing when a listener of the type has this function and context already, `this` counting as
      no context; else one new listener, with just these, behind the others of the type. */
  ghost predicate Registers(s: State, s': State, t: EventType, fn: Fn, ctx: Context, once: bool) {
    var known := if ctx == This then Undefined else ctx;
    if exists k :: 0 <= k < |Registered(s, t)| && Registered(s, t)[k] < |s.cells|
                   && s.cells[Registered(s, t)[k]].fn == fn && s.cells[Registered(s, t)[k]].ctx == known
    then s' == s
    else
      && Registered(s', t) == Registered(s, t) + [|s.cells|]
      && (forall t' :: t' != t ==> Registered(s', t') == Registered(s, t'))
      && s'.cells == s.cells + [Listener(fn, known, once, t)]
      && s'.firing == s.firing && s'.log == s.log && s'.removed == s.removed && s'.cleared == s.cleared
  }

  /** For every function and every context, registered or not. */
  lemma OnRegistersExactlyWhen(s: State, t: EventType, fn: Fn, ctx: Context, once: bool)
    requires Inv(s)
    ensures Registers(s, AddListener(s, t, fn, ctx, once), t, fn, ctx, once)
  {
    hide Index, Registered, Inv;
    InvParts(s);
    var s', ls := AddListener(s, t, fn, ctx, once), Registered(s, t);
    var i := Index(s, ls, fn, Normal(ctx));
    if i < |ls| {
      assert Matches(s, ls[i], fn, Normal(ctx)) && s' == s;
    } else {
      assert forall k | 0 <= k < |ls| :: !Matches(s, ls[k], fn, Normal(ctx));
      AddsOne(s, t, fn, ctx, once);
      forall t' ensures Registered(s', t') == Registered(s, t') + if t' == t then [|s.cells|] else [] {
        RegisteredAfterAdd(s, t, fn, ctx, once, t');
      }
    }
  }

  lemma AddsOne(s: State, t: EventType, fn: Fn, ctx: Context, once: bool)
    requires Index(s, Registered(s, t), fn, Normal(ctx)) == |Registered(s, t)|
    ensures var s' := AddListener(s, t, fn, ctx, once);
            && s'.cells == s.cells + [Listener(fn, Normal(ctx), once, t)]
            && s'.firing == s.firing && s'.log == s.log && s'.removed == s.removed && s'.cleared == s.cleared
  {
  }

  lemma RegisteredAfterAdd(s: State, t: EventType, fn: Fn, ctx: Context, once: bool, t': EventType)
    requires Shape(s) && AddListener(s, t, fn, ctx, once) != s
    ensures Registered(AddListener(s, t, fn, ctx, once), t') == Registered(s, t') + if t' == t then [|s.cells|] else []
  {
    hide Index;
  }

  lemma AddListenerShape(s: State, t: EventType, fn: Fn, ctx: Context, once: bool)
    requires Shape(s)
    ensures Shape(AddListener(s, t, fn, ctx, once))
  {
    hide Index;
  }

  lemma AddsKeepsTables(s: State, s': State, t: EventType)
    requires Shape(s) && Tables(s) && Adds(s, s', t)
    ensures Tables(s')
  {
    hide Registered;
    forall t'
      ensures AllLive(s', t', Registered(s', t')) && NoDuplicates(s', Registered(s', t'))
    {
      var ls, ls' := Registered(s, t'), Registered(s', t');
      assert AllLive(s, t', ls) && NoDuplicates(s, ls);
      assert forall k | 0 <= k < |ls| :: Live(s, t', ls[k]) && ls'[k] == ls[k];
    }
  }

  lemma AddsKeepsAccounted(s: State, s': State, t: EventType)
    requires Accounted(s) && Adds(s, s', t)
    ensures Accounted(s')
  {
    hide Registered;
    forall l: nat | l < |s'.cells|
      ensures l in s'.removed || l in s'.cleared || l in Registered(s', s'.cells[l].etype)
    {
      var t' := s'.cells[l].etype;
      assert Registered(s', t') == Registered(s, t') + if t' == t then [|s.cells|] else [];
      assert l == |s.cells| ==> Registered(s', t')[|Registered(s, t')|] == l;
    }
  }

  lemma AddsKeepsOnce(s: State, s': State, t: EventType)
    requires Shape(s) && OnceAtMost(s) && LogInRange(s) && Adds(s, s', t)
    ensures OnceAtMost(s') && LogInRange(s')
  {
    hide Registered;
    NeverInvoked(s.log, |s.cells|);
  }

  lemma AddsIsLater(s: State, s': State, t: EventType)
    requires Shape(s) && Adds(s, s', t)
    ensures Later(s, s') && (SilencedAreRemoved(s) ==> SilencedAreRemoved(s'))
  {
    hide Registered;
  }

  lemma AddsKeeps(s: State, s': State, t: EventType)
    requires Inv(s) && Adds(s, s', t) && Shape(s')
    ensures Keeps(s, s')
  {
    AddsKeepsTables(s, s', t);
    AddsKeepsAccounted(s, s', t);
    AddsKeepsOnce(s, s', t);
    AddsIsLater(s, s', t);
  }

  lemma {:induction false} NeverInvoked(log: seq<Turn>, l: nat)
    requires forall i | 0 <= i < |log| :: log[i].listener != l
    ensures Invocations(log, l) == 0
  {
    if log != [] {
      NeverInvoked(log[..|log| - 1], l);
    }
  }

  // Removing listeners keeps them.

  /** `after` is `before` without the listeners in `gone`. */
  ghost predicate LeftOf(before: seq<nat>, after: seq<nat>, gone: set<nat>) {
    && (forall l :: l in after <==> l in before && l !in gone)
    && (Distinct(before) ==> Distinct(after))
  }

  /** The listeners in `gone` leave the tables: by name, silenced while firing, or by clearing. */
  ghost predicate Removes(s: State, s': State, gone: set<nat>, named: bool) {
    && |s'.cells| == |s.cells| && s'.log == s.log && s'.firing == s.firing
    && (forall l | 0 <= l < |s.cells| ::
          && s'.cells[l].ctx == s.cells[l].ctx && s'.cells[l].once == s.cells[l].once && s'.cells[l].etype == s.cells[l].etype
          && s'.cells[l].fn == if l in gone && named && s.firing > 0 then NOOP else s.cells[l].fn)
    && s'.removed == (if named then s.removed + gone else s.removed)
    && s'.cleared == (if named then s.cleared else s.cleared + gone)
    && (forall t :: LeftOf(Registered(s, t), Registered(s', t), gone))
    && (s.firing > 0 ==> |s.arrays| <= |s'.arrays| && forall a | 0 <= a < |s.arrays| :: s.arrays[a] <= s'.arrays[a])
  }

  lemma RemovesKeepsTables(s: State, s': State, gone: set<nat>, named: bool)
    requires Tables(s) && Removes(s, s', gone, named)
    ensures Tables(s')
  {
    hide Registered, Distinct;
    forall t
      ensures AllLive(s', t, Registered(s', t)) && NoDuplicates(s', Registered(s', t))
    {
      var ls, ls' := Registered(s, t), Registered(s', t);
      assert AllLive(s, t, ls) && NoDuplicates(s, ls) && LeftOf(ls, ls', gone);
      forall l | l in ls'
        ensures Live(s', t, l) && s'.cells[l] == s.cells[l]
      {
        var k :| 0 <= k < |ls| && ls[k] == l;
        assert Live(s, t, ls[k]);
      }
      forall l1, l2 | l1 in ls' && l2 in ls' && l1 != l2
        ensures Differ(s', l1, l2)
      {
        assert Differ(s, l1, l2);
      }
    }
  }

  lemma RemovesKeepsAccounted(s: State, s': State, gone: set<nat>, named: bool)
    requires Accounted(s) && Removes(s, s', gone, named)
    ensures Accounted(s')
  {
    hide Registered;
    forall l: nat | l < |s'.cells|
      ensures l in s'.removed || l in s'.cleared || l in Registered(s', s'.cells[l].etype)
    {
      assert LeftOf(Registered(s, s.cells[l].etype), Registered(s', s.cells[l].etype), gone);
    }
  }

  lemma RemovesIsLater(s: State, s': State, gone: set<nat>, named: bool)
    requires Removes(s, s', gone, named)
    ensures s.firing > 0 ==> Later(s, s')
    ensures SilencedAreRemoved(s) ==> SilencedAreRemoved(s')
    ensures OnceAtMost(s) ==> OnceAtMost(s')
  {
    hide Registered, LeftOf;
  }

  lemma RemovesKeeps(s: State, s': State, gone: set<nat>, named: bool)
    requires Inv(s) && Removes(s, s', gone, named) && Shape(s')
    ensures Keeps(s, s')
  {
    RemovesKeepsTables(s, s', gone, named);
    RemovesKeepsAccounted(s, s', gone, named);
    RemovesIsLater(s, s', gone, named);
    hide Registered, Shape, Tables, Accounted, LeftOf;
  }

  lemma RegisteredAfterRemoveOne(s: State, t: EventType, fn: Fn, ctx: Context, t': EventType)
    requires Shape(s) && Index(s, Registered(s, t), fn, Normal(ctx)) < |Registered(s, t)|
    ensures var ls := Registered(s, t);
            var i := Index(s, ls, fn, Normal(ctx));
            Registered(RemoveOne(s, t, fn, ctx), t') == if t' == t then ls[..i] + ls[i + 1..] else Registered(s, t')
  {
    hide Index, Matches;
  }

  lemma RemoveOneShape(s: State, t: EventType, fn: Fn, ctx: Context)
    requires Shape(s)
    ensures Shape(RemoveOne(s, t, fn, ctx))
  {
    hide Index, Matches;
  }

  lemma RemoveOneLeaves(s: State, t: EventType, fn: Fn, ctx: Context, t': EventType)
    requires Shape(s) && Tables(s) && Index(s, Registered(s, t), fn, Normal(ctx)) < |Registered(s, t)|
    ensures var ls := Registered(s, t);
            LeftOf(Registered(s, t'), Registered(RemoveOne(s, t, fn, ctx), t'), {ls[Index(s, ls, fn, Normal(ctx))]})
  {
    hide Registered, RemoveOne, Tables, Matches, Shape, Index, LeftOf;
    var ls := Registered(s, t);
    var i := Index(s, ls, fn, Normal(ctx));
    RegisteredAfterRemoveOne(s, t, fn, ctx, t');
    OnlyInItsPlace(s, t, i, t');
    if t' != t {
      LeftUntouched(Registered(s, t'), ls[i]);
    } else {
      LeftOfOne(ls, i);
    }
  }

  lemma RemoveOneRemoves(s: State, t: EventType, fn: Fn, ctx: Context)
    requires Shape(s) && Tables(s) && Index(s, Registered(s, t), fn, Normal(ctx)) < |Registered(s, t)|
    ensures Shape(RemoveOne(s, t, fn, ctx))
    ensures Removes(s, RemoveOne(s, t, fn, ctx), {Registered(s, t)[Index(s, Registered(s, t), fn, Normal(ctx))]}, true)
  {
    hide RemoveOne, Shape, Registered, Tables, Matches, LeftOf, Index;
    RemoveOneShape(s, t, fn, ctx);
    RemoveOneChanges(s, t, fn, ctx);
    forall t'
      ensures LeftOf(Registered(s, t'), Registered(RemoveOne(s, t, fn, ctx), t'),
                     {Registered(s, t)[Index(s, Registered(s, t), fn, Normal(ctx))]})
    {
      RemoveOneLeaves(s, t, fn, ctx, t');
    }
  }

  lemma RemoveOneChanges(s: State, t: EventType, fn: Fn, ctx: Context)
    requires Shape(s) && Index(s, Registered(s, t), fn, Normal(ctx)) < |Registered(s, t)|
    ensures var s', ls := RemoveOne(s, t, fn, ctx), Registered(s, t);
            var i := Index(s, ls, fn, Normal(ctx));
            && ls[i] < |s.cells|
            && s'.cells == (if s.firing > 0 then s.cells[ls[i] := s.cells[ls[i]].(fn := NOOP)] else s.cells)
            && s'.removed == s.removed + {ls[i]} && s'.cleared == s.cleared && s'.log == s.log && s'.firing == s.firing
            && (s.firing > 0 ==> exists rest :: s'.arrays == s.arrays + [rest])
  {
    hide Matches;
  }

  lemma LeftUntouched(ls: seq<nat>, l: nat)
    requires l !in ls
    ensures LeftOf(ls, ls, {l})
  {
  }

  lemma LeftOfOne(ls: seq<nat>, i: nat)
    requires i < |ls| && forall k | 0 <= k < |ls| && ls[k] == ls[i] :: k == i
    ensures LeftOf(ls, ls[..i] + ls[i + 1..], {ls[i]})
  {
    var rest := ls[..i] + ls[i + 1..];
    forall l
      ensures l in rest <==> l in ls && l != ls[i]
    {
      if l in ls && l != ls[i] {
        var k :| 0 <= k < |ls| && ls[k] == l;
        assert rest[if k < i then k else k - 1] == l;
      }
      if l in rest {
        var k :| 0 <= k < |rest| && rest[k] == l;
        assert ls[if k < i then k else k + 1] == l;
      }
    }
    assert forall k | 0 <= k < |rest| :: rest[k] == ls[if k < i then k else k + 1];
  }

  /** A registered listener is in one place only. */
  lemma OnlyInItsPlace(s: State, t: EventType, i: nat, t': EventType)
    requires Tables(s) && i < |Registered(s, t)|
    ensures forall k | 0 <= k < |Registered(s, t')| && Registered(s, t')[k] == Registered(s, t)[i] :: t' == t && k == i
  {
    hide Registered;
    assert AllLive(s, t, Registered(s, t)) && NoDuplicates(s, Registered(s, t)) && AllLive(s, t', Registered(s, t'));
    assert Live(s, t, Registered(s, t)[i]);
  }

  lemma {:induction false} SilenceAllChanges(s: State, ls: seq<nat>)
    ensures var s' := SilenceAll(s, ls);
            && s' == s.(cells := s'.cells) && |s'.cells| == |s.cells|
            && forall l | 0 <= l < |s.cells| :: s'.cells[l] == if l in ls then s.cells[l].(fn := NOOP) else s.cells[l]
    decreases |ls|
  {
    if ls != [] {
      SilenceAllChanges(Silence(s, ls[0]), ls[1..]);
      assert forall l :: l in ls <==> l == ls[0] || l in ls[1..];
    }
  }

  lemma RemoveTypeRemoves(s: State, t: EventType)
    requires Shape(s) && Tables(s) && t in s.events
    ensures Shape(RemoveType(s, t))
    ensures Removes(s, RemoveType(s, t), set l | l in Registered(s, t), true)
  {
    hide SilenceAll, Tables;
    var ls := Registered(s, t);
    SilenceAllChanges(s.(events := s.events - {t}, removed := s.removed + set l | l in ls), ls);
    forall t'
      ensures LeftOf(Registered(s, t'), Registered(RemoveType(s, t), t'), set l | l in ls)
    {
      if t' != t {
        DisjointTables(s, t, t');
      }
    }
  }

  lemma DisjointTables(s: State, t: EventType, t': EventType)
    requires Tables(s) && t != t'
    ensures forall l | l in Registered(s, t) :: l !in Registered(s, t')
  {
    hide Registered, NoDuplicates;
    assert AllLive(s, t, Registered(s, t)) && AllLive(s, t', Registered(s, t'));
    forall l | l in Registered(s, t)
      ensures l !in Registered(s, t')
    {
      assert Live(s, t, l);
    }
  }

  lemma RemoveAllRemoves(s: State)
    requires Shape(s)
    ensures Shape(RemoveAll(s))
    ensures Removes(s, RemoveAll(s), set t, l | t in s.events && l in Registered(s, t) :: l, s.firing == 0)
  {
    var gone := set t, l | t in s.events && l in Registered(s, t) :: l;
    forall t
      ensures LeftOf(Registered(s, t), Registered(RemoveAll(s), t), gone)
    {
      assert Registered(RemoveAll(s), t) == [];
      assert forall l | l in Registered(s, t) :: t in s.events && l in gone;
    }
  }

  // A turn keeps them.

  /** The log grew by turns deeper than `depth`. */
  ghost predicate Deeper(before: seq<Turn>, after: seq<Turn>, depth: nat) {
    before <= after && forall i | |before| <= i < |after| :: after[i].depth > depth
  }

  lemma OffOneKeeps(s: State, t: EventType, fn: Fn, ctx: Context)
    requires Inv(s)
    ensures Keeps(s, RemoveOne(s, t, fn, ctx)) && RemoveOne(s, t, fn, ctx).log == s.log
  {
    hide Registered, Index, Tables, Shape, Later, Accounted;
    if Index(s, Registered(s, t), fn, Normal(ctx)) < |Registered(s, t)| {
      RemoveOneRemoves(s, t, fn, ctx);
      RemovesKeeps(s, RemoveOne(s, t, fn, ctx), {Registered(s, t)[Index(s, Registered(s, t), fn, Normal(ctx))]}, true);
    } else {
      LaterReflexive(s);
    }
  }

  lemma LaterReflexive(s: State)
    ensures Later(s, s)
  {
  }

  lemma {:induction false} OffEachKeeps(s: State, words: seq<EventType>, fn: Fn, ctx: Context)
    requires Inv(s)
    ensures var s' := RemoveEach(s, words, fn, ctx); Keeps(s, s') && s'.log == s.log && s'.cleared == s.cleared
    decreases |words|
  {
    hide Inv, Later, RemoveOne;
    LaterReflexive(s);
    if words != [] {
      var n := |words| - 1;
      var m := RemoveEach(s, words[..n], fn, ctx);
      OffEachKeeps(s, words[..n], fn, ctx);
      OffOneKeeps(m, words[n], fn, ctx);
      OffOneClearsNothing(m, words[n], fn, ctx);
      if s.firing > 0 {
        LaterTransitive(s, m, RemoveOne(m, words[n], fn, ctx));
      }
    }
  }

  lemma OffOneClearsNothing(s: State, t: EventType, fn: Fn, ctx: Context)
    ensures RemoveOne(s, t, fn, ctx).cleared == s.cleared
  {
  }

  lemma OffWordIsOffOne(s: State, t: EventType, fn: Fn, ctx: Context)
    requires IsWord(t)
    ensures RemoveEach(s, Words(t), fn, ctx) == RemoveOne(s, t, fn, ctx)
  {
    hide RemoveOne, Words, IsWord;
    WordsOfWord(t);
    assert [t][..0] == [];
    assert RemoveEach(s, [t][..0], fn, ctx) == s;
  }

  /** Taking off a registered listener by its own function and context takes off that listener and no other. */
  lemma OffFindsIt(s: State, t: EventType, l: nat)
    requires Inv(s) && l in Registered(s, t)
    ensures l < |s.cells|
    ensures var s' := RemoveOne(s, t, s.cells[l].fn, s.cells[l].ctx);
            && s'.removed == s.removed + {l} && s'.cleared == s.cleared
            && (forall t' :: t' != t ==> Registered(s', t') == Registered(s, t'))
            && exists i :: 0 <= i < |Registered(s, t)| && Registered(s, t)[i] == l
                           && Registered(s', t) == Registered(s, t)[..i] + Registered(s, t)[i + 1..]
  {
    hide Registered, RemoveOne, Accounted, OnceAtMost, Shape, Index, AllLive, NoDuplicates;
    var ls := Registered(s, t);
    assert AllLive(s, t, ls) && NoDuplicates(s, ls);
    IndexOfLive(s, t, ls, l);
    RemoveOneChanges(s, t, s.cells[l].fn, s.cells[l].ctx);
    RegisteredAfterTaking(s, t, s.cells[l].fn, s.cells[l].ctx);
    assert ls[Index(s, ls, s.cells[l].fn, s.cells[l].ctx)] == l;
  }

  lemma IndexOfLive(s: State, t: EventType, ls: seq<nat>, l: nat)
    requires AllLive(s, t, ls) && NoDuplicates(s, ls) && l in ls
    ensures l < |s.cells| && Normal(s.cells[l].ctx) == s.cells[l].ctx
    ensures var i := Index(s, ls, s.cells[l].fn, s.cells[l].ctx); i < |ls| && ls[i] == l
  {
    var k :| 0 <= k < |ls| && ls[k] == l;
    assert Live(s, t, ls[k]);
    var i := Index(s, ls, s.cells[l].fn, s.cells[l].ctx);
    assert Matches(s, ls[k], s.cells[l].fn, s.cells[l].ctx);
    assert ls[i] in ls && (ls[i] != l ==> Differ(s, ls[i], l));
  }

  lemma RegisteredAfterTaking(s: State, t: EventType, fn: Fn, ctx: Context)
    requires Shape(s) && Index(s, Registered(s, t), fn, Normal(ctx)) < |Registered(s, t)|
    ensures var s', ls, i := RemoveOne(s, t, fn, ctx), Registered(s, t), Index(s, Registered(s, t), fn, Normal(ctx));
            && (forall t' :: t' != t ==> Registered(s', t') == Registered(s, t'))
            && Registered(s', t) == ls[..i] + ls[i + 1..]
  {
    hide Registered, RemoveOne, Shape, Index;
    forall t' {
      RegisteredAfterRemoveOne(s, t, fn, ctx, t');
    }
  }

  lemma InvocationsNext(log: seq<Turn>, e: Turn, l: nat)
    ensures Invocations(log + [e], l) == Invocations(log, l) + if e.listener == l && e.fn != NOOP then 1 else 0
  {
    assert (log + [e])[..|log|] == log;
  }

  /** What the turn of a listener records. */
  function Entry(s: State, l: nat): Turn
    requires l < |s.cells|
  {
    Turn(s.firing, l, s.cells[l].fn, l in s.removed)
  }

  lemma LogTurn(s: State, s1: State, l: nat)
    requires Inv(s1) && l < |s.cells| && InStep(s, l) && LogInRange(s) && |s.cells| <= |s1.cells| && s1.log == s.log
    requires s1.cells[l].once && IsWord(s1.cells[l].etype) && l !in s1.cleared && s.cells[l].fn != NOOP ==> l in s1.removed && Invocations(s.log, l) == 0
    ensures Keeps(s1, s1.(log := s1.log + [Entry(s, l)]))
  {
    hide Tables, Accounted, Shape, Registered;
    var s2 := s1.(log := s1.log + [Entry(s, l)]);
    assert Tables(s2) && Accounted(s2) by {
      SameTables(s1, s2);
    }
    assert Shape(s2) by {
      SameShape(s1, s2);
    }
    forall l': nat | l' < |s2.cells| && s2.cells[l'].once && IsWord(s2.cells[l'].etype) && l' !in s2.cleared
      ensures Invocations(s2.log, l') <= if l' in s2.removed then 1 else 0
    {
      InvocationsNext(s1.log, Entry(s, l), l');
    }
  }

  lemma SameRegistered(s: State, s': State)
    requires s'.arrays == s.arrays && s'.events == s.events
    ensures forall t :: Registered(s', t) == Registered(s, t)
  {
  }

  lemma SameTables(s: State, s': State)
    requires s'.cells == s.cells && s'.arrays == s.arrays && s'.events == s.events && s'.removed == s.removed && s'.cleared == s.cleared
    ensures (Tables(s) ==> Tables(s')) && (Accounted(s) ==> Accounted(s'))
    ensures forall t :: Registered(s', t) == Registered(s, t)
  {
    hide Registered;
    SameRegistered(s, s');
    if Tables(s) {
      forall t
        ensures AllLive(s', t, Registered(s', t)) && NoDuplicates(s', Registered(s', t))
      {
        SameTable(s, s', t, Registered(s, t));
      }
    }
  }

  lemma SameTable(s: State, s': State, t: EventType, ls: seq<nat>)
    requires s'.cells == s.cells && s'.removed == s.removed && s'.cleared == s.cleared
    requires AllLive(s, t, ls) && NoDuplicates(s, ls)
    ensures AllLive(s', t, ls) && NoDuplicates(s', ls)
  {
    assert forall k | 0 <= k < |ls| :: Live(s, t, ls[k]);
    assert forall l1, l2 | l1 in ls && l2 in ls && l1 != l2 :: Differ(s, l1, l2);
  }

  lemma SameShape(s: State, s': State)
    requires s'.cells == s.cells && s'.arrays == s.arrays && s'.events == s.events && s'.removed == s.removed && s'.cleared == s.cleared
    ensures Shape(s) ==> Shape(s')
  {
  }

  lemma BeginTurnKeeps(s: State, t: EventType, l: nat)
    requires Inv(s) && s.firing > 0 && InStep(s, l) && s.cells[l].etype == t
    ensures Keeps(s, BeginTurn(s, t, l)) && BeginTurn(s, t, l).log == s.log + [Entry(s, l)]
  {
    hide Tables, Shape, Registered, RemoveOne, RemoveEach, Words, IsWord;
    var a := s.cells[l];
    var s1 := if a.once then RemoveEach(s, Words(t), a.fn, a.ctx) else s;
    LaterReflexive(s);
    if a.once {
      OffEachKeeps(s, Words(t), a.fn, a.ctx);
      if a.fn != NOOP && l !in s.cleared && IsWord(t) {
        OffWordIsOffOne(s, t, a.fn, a.ctx);
        OffFindsIt(s, t, l);
      }
    }
    LogTurn(s, s1, l);
    LaterTransitive(s, s1, BeginTurn(s, t, l));
  }

  /** A turn takes a listener off the table exactly when it is the turn of a `once` listener with this function and context,
      and the listener's type is a word of the turn's type. Where that type is a single word, it is the listener itself, or
      one with a namesake that an `off` without arguments took off while it was waiting for this turn. */
  lemma TurnTakesOffExactlyWhen(s: State, t: EventType, a: nat, t': EventType, l: nat)
    requires Inv(s) && s.firing > 0 && InStep(s, a) && s.cells[a].etype == t
    requires l in Registered(s, t')
    ensures l < |s.cells|
    ensures l !in Registered(BeginTurn(s, t, a), t') <==>
              t' in Words(t) && s.cells[a].once && Matches(s, l, s.cells[a].fn, s.cells[a].ctx)
    ensures IsWord(t) && l !in Registered(BeginTurn(s, t, a), t') ==> t' == t && (l == a || a in s.cleared)
    ensures !IsWord(t) && t' == t ==> l in Registered(BeginTurn(s, t, a), t')
  {
    hide RemoveOne, RemoveEach, Shape, OnceAtMost, Index, Words, IsWord;
    var fn, ctx := s.cells[a].fn, s.cells[a].ctx;
    RegisteredIsAlive(s, t', l);
    BeginTurnTables(s, t, a, t');
    ContextIsNormal(s, a);
    WordsOfWord(t);
    if s.cells[a].once {
      OffEachTakesOff(s, Words(t), fn, ctx, t', l);
    }
    if IsWord(t) && t' == t && l != a && Matches(s, l, fn, ctx) && a !in s.cleared && a in Registered(s, t) {
      assert NoDuplicates(s, Registered(s, t)) && Differ(s, l, a);
    }
  }

  lemma RegisteredIsAlive(s: State, t: EventType, l: nat)
    requires Tables(s) && l in Registered(s, t)
    ensures Live(s, t, l)
  {
    hide Registered;
    assert AllLive(s, t, Registered(s, t));
  }

  lemma {:induction false} OffEachTakesOff(s: State, words: seq<EventType>, fn: Fn, ctx: Context, t: EventType, l: nat)
    requires Inv(s) && s.firing > 0 && l in Registered(s, t) && Normal(ctx) == ctx
    ensures l !in Registered(RemoveEach(s, words, fn, ctx), t) <==> t in words && Matches(s, l, fn, ctx)
    decreases |words|
  {
    hide RemoveOne, Registered, Accounted, Shape, Index;
    if words != [] {
      var n := |words| - 1;
      var m := RemoveEach(s, words[..n], fn, ctx);
      OffEachKeeps(s, words[..n], fn, ctx);
      OffEachTakesOff(s, words[..n], fn, ctx, t, l);
      assert t in words <==> t in words[..n] || t == words[n];
      RegisteredIsAlive(s, t, l);
      OffOneTakesOff(m, words[n], fn, ctx, t, l);
      if l in Registered(m, t) {
        RegisteredIsAlive(m, t, l);
      }
    }
  }

  lemma OffOneTakesOff(s: State, w: EventType, fn: Fn, ctx: Context, t: EventType, l: nat)
    requires Inv(s) && Normal(ctx) == ctx
    ensures l !in Registered(RemoveOne(s, w, fn, ctx), t) <==> l !in Registered(s, t) || (t == w && Matches(s, l, fn, ctx))
  {
    hide Registered, RemoveOne, Shape, OnceAtMost, Index;
    var ls := Registered(s, w);
    assert AllLive(s, t, Registered(s, t)) && AllLive(s, w, ls) && NoDuplicates(s, ls);
    var i := Index(s, ls, fn, Normal(ctx));
    if i == |ls| {
      RemoveOneNot(s, w, fn, ctx);
    } else {
      RemoveOneLeaves(s, w, fn, ctx, t);
      assert Live(s, w, ls[i]) && ls[i] in ls;
      if l in Registered(s, t) {
        RegisteredIsAlive(s, t, l);
      }
    }
  }

  lemma BeginTurnTables(s: State, t: EventType, a: nat, t': EventType)
    requires a < |s.cells|
    ensures Registered(BeginTurn(s, t, a), t')
         == Registered(if s.cells[a].once then RemoveEach(s, Words(t), s.cells[a].fn, s.cells[a].ctx) else s, t')
  {
    hide RemoveEach;
  }

  lemma ContextIsNormal(s: State, a: nat)
    requires Shape(s) && a < |s.cells|
    ensures Normal(s.cells[a].ctx) == s.cells[a].ctx
  {
  }

  // Every run keeps them.

  /** The listeners a fire has still to visit are in step, and were registered for its type. */
  ghost predicate Snapshot(s: State, t: EventType, list: nat, k: nat, r: nat) {
    && list < |s.arrays| && r <= |s.arrays[list]|
    && forall i | k <= i < r :: InStep(s, s.arrays[list][i]) && s.cells[s.arrays[list][i]].etype == t
  }

  lemma SnapshotAt(s: State, t: EventType, list: nat, k: nat, r: nat)
    requires Snapshot(s, t, list, k, r) && k < r
    ensures list < |s.arrays| && k < |s.arrays[list]| && s.arrays[list][k] < |s.cells|
    ensures InStep(s, s.arrays[list][k]) && s.cells[s.arrays[list][k]].etype == t
  {
    assert InStep(s, s.arrays[list][k]);
  }

  lemma FireIs(s: State, t: EventType, hs: Handlers)
    ensures Registered(s, t) == [] ==> Exec(s, Fire(t, hs)) == s
    ensures Registered(s, t) != [] ==> t in s.events
    ensures Registered(s, t) != [] ==>
              var s2 := Turns(s.(firing := s.firing + 1), t, s.events[t], 0, |Registered(s, t)|, hs);
              Exec(s, Fire(t, hs)) == s2.(firing := if s2.firing > 0 then s2.firing - 1 else 0)
  {
    hide Turns;
  }

  lemma ExecIs(s: State, a: Act)
    ensures match a
            case On(t, fn, ctx, once) => Exec(s, a) == AddListener(s, t, fn, ctx, once)
            case OffOne(t, fn, ctx) => Exec(s, a) == RemoveOne(s, t, fn, ctx)
            case OffType(t) => Exec(s, a) == RemoveType(s, t)
            case OffAll => Exec(s, a) == RemoveAll(s)
            case Fire(_, _) => true
  {
  }

  lemma NothingRegistered(s: State, t: EventType)
    requires t !in s.events
    ensures Registered(s, t) == []
  {
  }

  lemma SnapshotLater(s: State, s': State, t: EventType, list: nat, k: nat, r: nat)
    requires Snapshot(s, t, list, k, r) && Later(s, s')
    ensures Snapshot(s', t, list, k, r) && forall i | 0 <= i < r :: s'.arrays[list][i] == s.arrays[list][i]
  {
    assert s.arrays[list] <= s'.arrays[list];
    forall i | k <= i < r
      ensures InStep(s', s'.arrays[list][i]) && s'.cells[s'.arrays[list][i]].etype == t
    {
      assert InStep(s, s.arrays[list][i]);
    }
  }

  lemma {:induction false} ExecKeeps(s: State, a: Act)
    requires Inv(s) && ProperAct(a)
    ensures Keeps(s, Exec(s, a)) && Deeper(s.log, Exec(s, a).log, s.firing)
    decreases a
  {
    hide Inv, Later, AddListener, RemoveOne, RemoveType, RemoveAll, Turns, Registered;
    InvParts(s);
    LaterReflexive(s);
    match a
    case On(t, fn, ctx, once) =>
      AddListenerAdds(s, t, fn, ctx, once);
      if Exec(s, a) != s {
        AddsKeeps(s, Exec(s, a), t);
        AddsLog(s, Exec(s, a), t);
      }
    case OffOne(t, fn, ctx) =>
      OffOneKeeps(s, t, fn, ctx);
    case OffType(t) =>
      if t in s.events {
        RemoveTypeRemoves(s, t);
        RemovesKeeps(s, Exec(s, a), set l | l in Registered(s, t), true);
        RemovesLog(s, Exec(s, a), set l | l in Registered(s, t), true);
      } else {
        RemoveTypeAbsent(s, t);
      }
    case OffAll =>
      RemoveAllRemoves(s);
      RemovesKeeps(s, Exec(s, a), set t, l | t in s.events && l in Registered(s, t) :: l, s.firing == 0);
      RemovesLog(s, Exec(s, a), set t, l | t in s.events && l in Registered(s, t) :: l, s.firing == 0);
    case Fire(t, hs) =>
      if Registered(s, t) != [] {
        var s1 := s.(firing := s.firing + 1);
        FireStarts(s, t);
        TurnsKeep(s1, t, s.events[t], 0, |Registered(s, t)|, hs);
        FireEnds(s, Turns(s1, t, s.events[t], 0, |Registered(s, t)|, hs));
      }
  }

  lemma InvParts(s: State)
    requires Inv(s)
    ensures Shape(s) && Tables(s)
  {
  }

  /** Removing a listener that is found, as one state. */
  lemma RemoveOneFound(s: State, t: EventType, fn: Fn, ctx: Context, i: nat, rest: seq<nat>)
    requires Shape(s) && t in s.events && i == Index(s, Registered(s, t), fn, Normal(ctx)) < |Registered(s, t)|
    requires rest == Registered(s, t)[..i] + Registered(s, t)[i + 1..]
    ensures var l := Registered(s, t)[i];
            && l < |s.cells| && s.events[t] < |s.arrays|
            && RemoveOne(s, t, fn, ctx) ==
               if s.firing > 0 then
                 State(s.cells[l := s.cells[l].(fn := NOOP)], s.arrays + [rest], s.events[t := |s.arrays|], s.firing,
                       s.log, s.removed + {l}, s.cleared)
               else
                 State(s.cells, s.arrays[s.events[t] := rest], s.events, s.firing, s.log, s.removed + {l}, s.cleared)
  {
    hide Index, Matches;
  }

  lemma RemoveOneNot(s: State, t: EventType, fn: Fn, ctx: Context)
    requires Shape(s) && (t in s.events ==> Index(s, Registered(s, t), fn, Normal(ctx)) == |Registered(s, t)|)
    ensures RemoveOne(s, t, fn, ctx) == s
  {
  }

  lemma ArrayOf(s: State, t: EventType)
    requires Shape(s) && t in s.events
    ensures s.events[t] < |s.arrays| && Registered(s, t) == s.arrays[s.events[t]]
    ensures forall k | 0 <= k < |s.arrays[s.events[t]]| :: s.arrays[s.events[t]][k] < |s.cells|
  {
  }

  lemma AddsLog(s: State, s': State, t: EventType)
    requires Adds(s, s', t)
    ensures s'.log == s.log
  {
  }

  lemma RemovesLog(s: State, s': State, gone: set<nat>, named: bool)
    requires Removes(s, s', gone, named)
    ensures s'.log == s.log
  {
  }

  lemma RemoveTypeAbsent(s: State, t: EventType)
    requires t !in s.events
    ensures RemoveType(s, t) == s
  {
  }

  lemma FireStarts(s: State, t: EventType)
    requires Inv(s) && Registered(s, t) != []
    ensures t in s.events && s.events[t] < |s.arrays| && Registered(s, t) == s.arrays[s.events[t]]
    ensures var s1 := s.(firing := s.firing + 1);
            Inv(s1) && Snapshot(s1, t, s.events[t], 0, |Registered(s, t)|)
  {
    var s1 := s.(firing := s.firing + 1);
    SameTables(s, s1);
    SameShape(s, s1);
    hide Shape, Accounted;
    assert AllLive(s, t, Registered(s, t));
    forall i | 0 <= i < |Registered(s, t)|
      ensures InStep(s1, Registered(s, t)[i]) && s1.cells[Registered(s, t)[i]].etype == t
    {
      assert Live(s, t, Registered(s, t)[i]);
    }
  }

  lemma FireEnds(s: State, s2: State)
    requires Inv(s2) && Later(s.(firing := s.firing + 1), s2)
    ensures Keeps(s, s2.(firing := s2.firing - 1))
  {
    var s' := s2.(firing := s2.firing - 1);
    SameTables(s2, s');
    SameShape(s2, s');
    hide Tables, Accounted, Shape;
    if s.firing > 0 {
      forall l: nat | InStep(s, l)
        ensures InStep(s', l)
      {
        assert InStep(s.(firing := s.firing + 1), l);
        assert InStep(s2, l);
      }
    }
  }

  lemma {:induction false} RunKeeps(s: State, script: Script)
    requires Inv(s) && ProperScript(script)
    ensures Keeps(s, Run(s, script)) && Deeper(s.log, Run(s, script).log, s.firing)
    decreases script
  {
    hide Inv, Later, Exec;
    match script
    case Done =>
      LaterReflexive(s);
    case Then(a, rest) =>
      ExecKeeps(s, a);
      RunKeeps(Exec(s, a), rest);
      if s.firing > 0 {
        LaterTransitive(s, Exec(s, a), Run(s, script));
      }
  }

  /** One whole turn: its beginning, and the handler unless the listener was silenced. */
  function OneTurn(s: State, t: EventType, l: nat, hs: Handlers): State
    requires l < |s.cells|
  {
    var s1 := BeginTurn(s, t, l);
    if hs.Handler? && s.cells[l].fn != NOOP then Run(s1, hs.script) else s1
  }

  function RestOf(hs: Handlers): Handlers {
    if hs.Handler? then hs.rest else hs
  }

  lemma OneTurnKeeps(s: State, t: EventType, list: nat, k: nat, r: nat, hs: Handlers)
    requires Inv(s) && s.firing > 0 && k < r && Snapshot(s, t, list, k, r)
    requires hs.Handler? ==> Keeps(BeginTurn(s, t, s.arrays[list][k]), Run(BeginTurn(s, t, s.arrays[list][k]), hs.script))
                             && Deeper(BeginTurn(s, t, s.arrays[list][k]).log, Run(BeginTurn(s, t, s.arrays[list][k]), hs.script).log, s.firing)
    ensures var l := s.arrays[list][k];
            var s2 := OneTurn(s, t, l, hs);
            && Inv(s2) && Later(s, s2) && s2.firing == s.firing && Deeper(s.log + [Entry(s, l)], s2.log, s.firing)
            && Snapshot(s2, t, list, k + 1, r) && (forall i | 0 <= i < r :: s2.arrays[list][i] == s.arrays[list][i])
            && Turns(s, t, list, k, r, hs) == Turns(s2, t, list, k + 1, r, RestOf(hs))
  {
    hide Inv, Later, BeginTurn, Run;
    var l := s.arrays[list][k];
    assert InStep(s, l);
    BeginTurnKeeps(s, t, l);
    var s1, s2 := BeginTurn(s, t, l), OneTurn(s, t, l, hs);
    LaterReflexive(s1);
    LaterFiring(s, s1);
    LaterTransitive(s, s1, s2);
    LaterFiring(s, s2);
    SnapshotLater(s, s2, t, list, k, r);
  }

  lemma OneTurnIsKept(s: State, t: EventType, list: nat, k: nat, r: nat, hs: Handlers)
    requires Inv(s) && s.firing > 0 && ProperHandlers(hs) && k < r && Snapshot(s, t, list, k, r)
    ensures var l := s.arrays[list][k];
            var s2 := OneTurn(s, t, l, hs);
            && Inv(s2) && Later(s, s2) && s2.firing == s.firing && Deeper(s.log + [Entry(s, l)], s2.log, s.firing)
            && Snapshot(s2, t, list, k + 1, r) && (forall i | 0 <= i < r :: s2.arrays[list][i] == s.arrays[list][i])
            && Turns(s, t, list, k, r, hs) == Turns(s2, t, list, k + 1, r, RestOf(hs))
    decreases hs, 0
  {
    hide Inv, Later, BeginTurn, Run, Turns, OneTurn;
    var l := s.arrays[list][k];
    assert InStep(s, l);
    BeginTurnKeeps(s, t, l);
    LaterFiring(s, BeginTurn(s, t, l));
    if hs.Handler? {
      RunKeeps(BeginTurn(s, t, l), hs.script);
    }
    OneTurnKeeps(s, t, list, k, r, hs);
  }

  lemma {:induction false} TurnsKeep(s: State, t: EventType, list: nat, k: nat, r: nat, hs: Handlers)
    requires Inv(s) && s.firing > 0 && ProperHandlers(hs) && Snapshot(s, t, list, k, r)
    ensures var s' := Turns(s, t, list, k, r, hs);
            Inv(s') && Later(s, s') && Deeper(s.log, s'.log, s.firing - 1)
    decreases hs, if k < r then r - k else 0
  {
    hide Inv, Later, BeginTurn, Run, Turns;
    if k < r {
      var l := s.arrays[list][k];
      assert InStep(s, l);
      OneTurnIsKept(s, t, list, k, r, hs);
      var s2 := OneTurn(s, t, l, hs);
      TurnsKeep(s2, t, list, k + 1, r, RestOf(hs));
      LaterTransitive(s, s2, Turns(s2, t, list, k + 1, r, RestOf(hs)));
    } else {
      TurnsDone(s, t, list, k, r, hs);
      LaterReflexive(s);
    }
  }

  lemma TurnsDone(s: State, t: EventType, list: nat, k: nat, r: nat, hs: Handlers)
    requires k >= r
    ensures Turns(s, t, list, k, r, hs) == s
  {
  }

  lemma LaterFiring(s: State, s': State)
    requires Later(s, s')
    ensures s'.firing == s.firing
  {
  }

  // What a fire calls.

  function AtDepth(log: seq<Turn>, depth: nat): seq<Turn> {
    if log == [] then []
    else
      var rest, last := AtDepth(log[..|log| - 1], depth), log[|log| - 1];
      if last.depth == depth then rest + [last] else rest
  }

  lemma {:induction false} DeeperIsUnseen(before: seq<Turn>, after: seq<Turn>, depth: nat)
    requires Deeper(before, after, depth)
    ensures AtDepth(after, depth) == AtDepth(before, depth)
    decreases |after|
  {
    if before != after {
      DeeperIsUnseen(before, after[..|after| - 1], depth);
    }
  }

  /** The turns at this depth visit the listeners `ls` in order, each called unless it had been removed. */
  ghost predicate Visits(s: State, ls: seq<nat>, turns: seq<Turn>) {
    && |turns| == |ls|
    && forall i | 0 <= i < |ls| ::
         && turns[i].depth == s.firing && turns[i].listener == ls[i] && ls[i] < |s.cells|
         && turns[i].fn == if turns[i].removed then NOOP else s.cells[ls[i]].fn
  }

  lemma VisitsNext(s: State, s2: State, ls: seq<nat>, turns: seq<Turn>)
    requires Later(s, s2) && ls != [] && InStep(s, ls[0]) && Visits(s2, ls[1..], turns) && Honest(turns)
    requires forall i | 0 <= i < |ls| :: ls[i] < |s.cells|
    ensures Visits(s, ls, [Entry(s, ls[0])] + turns) && Honest([Entry(s, ls[0])] + turns)
  {
    var all := [Entry(s, ls[0])] + turns;
    forall i | 0 < i < |ls|
      ensures all[i] == turns[i - 1] && all[i].depth == s.firing && all[i].listener == ls[i]
      ensures all[i].fn == if all[i].removed then NOOP else s.cells[ls[i]].fn
    {
      assert all[i] == turns[i - 1] && ls[i] == ls[1..][i - 1];
    }
  }

  lemma {:induction false} TurnsVisit(s: State, t: EventType, list: nat, k: nat, r: nat, hs: Handlers) returns (turns: seq<Turn>)
    requires Inv(s) && s.firing > 0 && ProperHandlers(hs) && k <= r && Snapshot(s, t, list, k, r)
    ensures Visits(s, s.arrays[list][k..r], turns) && Honest(turns)
    ensures AtDepth(Turns(s, t, list, k, r, hs).log, s.firing) == AtDepth(s.log, s.firing) + turns
    decreases hs, r - k
  {
    hide Inv, Later, BeginTurn, Run, Turns, Visits, Honest, AtDepth, Deeper;
    if k < r {
      var l, ls := s.arrays[list][k], s.arrays[list][k..r];
      assert InStep(s, l) && ls[0] == l;
      OneTurnIsKept(s, t, list, k, r, hs);
      var s2 := OneTurn(s, t, l, hs);
      var rest := TurnsVisit(s2, t, list, k + 1, r, RestOf(hs));
      assert s2.arrays[list][k + 1..r] == ls[1..];
      forall i | 0 <= i < |ls|
        ensures ls[i] < |s.cells|
      {
        assert InStep(s, s.arrays[list][k + i]);
      }
      VisitsNext(s, s2, ls, rest);
      turns := [Entry(s, l)] + rest;
      DeeperIsUnseen(s.log + [Entry(s, l)], s2.log, s.firing);
      AtDepthNext(s.log, Entry(s, l), s.firing);
      assert AtDepth(s.log, s.firing) + [Entry(s, l)] + rest == AtDepth(s.log, s.firing) + turns;
    } else {
      TurnsDone(s, t, list, k, r, hs);
      turns := [];
      NothingToVisit(s, s.arrays[list][k..r]);
      assert AtDepth(s.log, s.firing) + [] == AtDepth(s.log, s.firing);
    }
  }

  lemma AtDepthNext(log: seq<Turn>, e: Turn, depth: nat)
    ensures AtDepth(log + [e], depth) == AtDepth(log, depth) + if e.depth == depth then [e] else []
  {
    assert (log + [e])[..|log|] == log;
  }

  lemma NothingToVisit(s: State, ls: seq<nat>)
    requires ls == []
    ensures Visits(s, ls, []) && Honest([])
  {
  }

  /** For any actions of the handlers, `fire` takes the listeners registered at its start in their order, calls the function of
      each one exactly when it has not been removed before its turn, and leaves the firing count as it was. */
  lemma FireIsFaithful(s: State, t: EventType, hs: Handlers)
    requires Inv(s) && ProperHandlers(hs)
    ensures var s' := Exec(s, Fire(t, hs));
            && s'.firing == s.firing && s.log <= s'.log
            && exists turns ::
                 && Visits(s.(firing := s.firing + 1), Registered(s, t), turns) && Honest(turns)
                 && AtDepth(s'.log, s.firing + 1) == AtDepth(s.log, s.firing + 1) + turns
  {
    hide Inv, Later, Turns, Visits, Honest, AtDepth;
    ExecKeeps(s, Fire(t, hs));
    var s1 := s.(firing := s.firing + 1);
    if Registered(s, t) != [] {
      FireStarts(s, t);
      var turns := TurnsVisit(s1, t, s.events[t], 0, |Registered(s, t)|, hs);
      assert s.arrays[s.events[t]][0..|Registered(s, t)|] == Registered(s, t);
    } else {
      NothingToVisit(s1, Registered(s, t));
      assert AtDepth(s.log, s.firing + 1) + [] == AtDepth(s.log, s.firing + 1);
    }
  }

  /** What the handler of a turn does; nothing when no handler is given for it. */
  function HandlerAt(hs: Handlers, i: nat): Script {
    match hs
    case NoMore => Done
    case Handler(script, rest) => if i == 0 then script else HandlerAt(rest, i - 1)
  }

  /** A turn that takes a `once` listener off the words of the type, notes it, and runs the handler of its function,
      unless that is the no-op. */
  ghost predicate IsTurn(m: State, next: State, t: EventType, l: nat, handler: Script) {
    && l < |m.cells|
    && var a := m.cells[l];
       var off := if a.once then RemoveEach(m, Words(t), a.fn, a.ctx) else m;
       var begun := off.(log := m.log + [Turn(m.firing, l, a.fn, l in m.removed)]);
       next == if a.fn != NOOP then Run(begun, handler) else begun
  }

  /** A fire, moment by moment: one turn for each listener registered at its start, in order, whatever the handlers do. */
  lemma FireStepByStep(s: State, t: EventType, hs: Handlers) returns (moments: seq<State>)
    requires Inv(s) && ProperHandlers(hs) && Registered(s, t) != []
    ensures |moments| == |Registered(s, t)| + 1 && moments[0] == s.(firing := s.firing + 1)
    ensures forall i :: 0 <= i < |Registered(s, t)| ==>
              IsTurn(moments[i], moments[i + 1], t, Registered(s, t)[i], HandlerAt(hs, i))
    ensures var last := moments[|moments| - 1];
            last.firing == s.firing + 1 && Exec(s, Fire(t, hs)) == last.(firing := s.firing)
  {
    hide Inv, Later, Turns, IsTurn, Exec;
    FireIs(s, t, hs);
    FireStarts(s, t);
    var s1 := s.(firing := s.firing + 1);
    moments := TurnsStepByStep(s1, t, s.events[t], 0, |Registered(s, t)|, hs);
    assert s.arrays[s.events[t]][0..|Registered(s, t)|] == Registered(s, t);
  }

  lemma {:induction false} TurnsStepByStep(s: State, t: EventType, list: nat, k: nat, r: nat, hs: Handlers)
      returns (moments: seq<State>)
    requires Inv(s) && s.firing > 0 && ProperHandlers(hs) && k <= r && Snapshot(s, t, list, k, r)
    ensures |moments| == r - k + 1 && moments[0] == s && moments[r - k] == Turns(s, t, list, k, r, hs)
    ensures moments[r - k].firing == s.firing
    ensures forall i :: 0 <= i < r - k ==> IsTurn(moments[i], moments[i + 1], t, s.arrays[list][k + i], HandlerAt(hs, i))
    decreases hs, r - k
  {
    hide Inv, Later, BeginTurn, Run, Turns, IsTurn, OneTurn;
    if k < r {
      var l := s.arrays[list][k];
      assert InStep(s, l);
      OneTurnIsKept(s, t, list, k, r, hs);
      var s2 := OneTurn(s, t, l, hs);
      OneTurnIsTurn(s, t, l, hs);
      var rest := TurnsStepByStep(s2, t, list, k + 1, r, RestOf(hs));
      moments := [s] + rest;
      forall i | 0 <= i < r - k
        ensures IsTurn(moments[i], moments[i + 1], t, s.arrays[list][k + i], HandlerAt(hs, i))
      {
        if i > 0 {
          HandlerOfRest(hs, i);
          assert IsTurn(rest[i - 1], rest[i - 1 + 1], t, s2.arrays[list][k + 1 + (i - 1)], HandlerAt(RestOf(hs), i - 1));
        }
      }
    } else {
      TurnsDone(s, t, list, k, r, hs);
      moments := [s];
    }
  }

  lemma HandlerOfRest(hs: Handlers, i: nat)
    requires i > 0
    ensures HandlerAt(hs, i) == HandlerAt(RestOf(hs), i - 1)
  {
  }

  lemma OneTurnIsTurn(s: State, t: EventType, l: nat, hs: Handlers)
    requires Inv(s) && s.firing > 0 && InStep(s, l) && s.cells[l].etype == t
    ensures IsTurn(s, OneTurn(s, t, l, hs), t, l, HandlerAt(hs, 0))
  {
    hide Inv, Later, RemoveEach, Words;
    var a := s.cells[l];
    if a.once {
      OffEachKeeps(s, Words(t), a.fn, a.ctx);
    }
  }

  /** From no listeners at all, after any run: no pair is registered twice, the firing count is back at zero, each turn called
      its listener exactly when it had not been removed, and a `once` listener of a single word was called at most once unless it
      was cleared. */
  lemma EveryRunIsSound(script: Script)
    requires ProperScript(script)
    ensures var s := Run(EMPTY, script);
            && s.firing == 0 && Honest(s.log)
            && (forall t :: NoDuplicates(s, Registered(s, t)))
            && forall l: nat | l < |s.cells| && s.cells[l].once && IsWord(s.cells[l].etype) && l !in s.cleared :: Invocations(s.log, l) <= 1
  {
    RunKeeps(EMPTY, script);
    hide Run, Registered, NoDuplicates;
    var s := Run(EMPTY, script);
    forall t
      ensures NoDuplicates(s, Registered(s, t))
    {
      assert AllLive(s, t, Registered(s, t)) && NoDuplicates(s, Registered(s, t));
    }
  }

  lemma EmptyIsSound()
    ensures Inv(EMPTY)
  {
  }

  // The exception is real: an `off` without arguments silences nothing.

  const CLICK: EventType := "click"
  const PLAIN := Listener(1, Undefined, false, CLICK)
  const ONCE := Listener(2, Undefined, true, CLICK)

  /** Both listeners registered, the table there or cleared, at some nesting depth and with some log. */
  function Both(cleared: bool, firing: nat, log: seq<Turn>): State {
    State([PLAIN, ONCE], [[0, 1]], if cleared then map[] else map[CLICK := 0], firing, log, {}, if cleared then {0, 1} else {})
  }

  /** The handler of the plain listener fires again; in that inner fire it clears the table. */
  const INNER: Handlers := Handler(Then(OffAll, Done), NoMore)
  const OUTER: Handlers := Handler(Then(Fire(CLICK, INNER), Done), NoMore)
  const CLEARING: Script := Then(On(CLICK, 1, Undefined, false), Then(On(CLICK, 2, Undefined, true), Then(Fire(CLICK, OUTER), Done)))

  lemma BothRegistered()
    ensures Exec(Exec(EMPTY, On(CLICK, 1, Undefined, false)), On(CLICK, 2, Undefined, true)) == Both(false, 0, [])
  {
    var s1 := Exec(EMPTY, On(CLICK, 1, Undefined, false));
    assert s1 == State([PLAIN], [[0]], map[CLICK := 0], 0, [], {}, {});
    assert Registered(s1, CLICK) == [0] && !Matches(s1, 0, 2, Undefined);
    assert [0] + [1] == [0, 1];
  }

  lemma PlainTurn(firing: nat, log: seq<Turn>)
    ensures BeginTurn(Both(false, firing, log), CLICK, 0) == Both(false, firing, log + [Turn(firing, 0, 1, false)])
  {
  }

  lemma ClearedTurn(firing: nat, log: seq<Turn>)
    ensures Turns(Both(true, firing, log), CLICK, 0, 1, 2, NoMore) == Both(true, firing, log + [Turn(firing, 1, 2, false)])
  {
    hide RemoveEach, Words;
    var s := Both(true, firing, log);
    OffWordIsOffOne(s, CLICK, 2, Undefined);
    assert RemoveOne(s, CLICK, 2, Undefined) == s;
    assert BeginTurn(s, CLICK, 1) == Both(true, firing, log + [Turn(firing, 1, 2, false)]);
  }

  lemma Clears(firing: nat, log: seq<Turn>)
    requires firing > 0
    ensures Run(Both(false, firing, log), Then(OffAll, Done)) == Both(true, firing, log)
  {
    var s := Both(false, firing, log);
    assert Registered(s, CLICK) == [0, 1];
    assert (set t, l | t in s.events && l in Registered(s, t) :: l) == {0, 1} by {
      assert CLICK in s.events && 0 in Registered(s, CLICK) && 1 in Registered(s, CLICK);
    }
    assert Exec(s, OffAll) == Both(true, firing, log);
  }

  lemma InnerFire(log: seq<Turn>)
    ensures Exec(Both(false, 1, log), Fire(CLICK, INNER)) == Both(true, 1, log + [Turn(2, 0, 1, false)] + [Turn(2, 1, 2, false)])
  {
    hide BeginTurn, Run, RemoveOne;
    PlainTurn(2, log);
    Clears(2, log + [Turn(2, 0, 1, false)]);
    ClearedTurn(2, log + [Turn(2, 0, 1, false)]);
    assert Turns(Both(false, 2, log), CLICK, 0, 0, 2, INNER)
        == Turns(Both(true, 2, log + [Turn(2, 0, 1, false)]), CLICK, 0, 1, 2, NoMore);
  }

  lemma OuterFire()
    ensures Exec(Both(false, 0, []), Fire(CLICK, OUTER))
         == Both(true, 0, [Turn(1, 0, 1, false), Turn(2, 0, 1, false), Turn(2, 1, 2, false), Turn(1, 1, 2, false)])
  {
    hide BeginTurn, RemoveOne;
    var log := [] + [Turn(1, 0, 1, false)];
    PlainTurn(1, []);
    InnerFire(log);
    var log' := log + [Turn(2, 0, 1, false)] + [Turn(2, 1, 2, false)];
    assert Run(Both(false, 1, log), Then(Fire(CLICK, INNER), Done)) == Both(true, 1, log');
    ClearedTurn(1, log');
    assert Turns(Both(false, 1, []), CLICK, 0, 0, 2, OUTER) == Turns(Both(true, 1, log'), CLICK, 0, 1, 2, NoMore);
  }

  lemma RunOfThree(s: State, a: Act, b: Act, c: Act)
    ensures Run(s, Then(a, Then(b, Then(c, Done)))) == Exec(Exec(Exec(s, a), b), c)
  {
    hide Exec;
    assert Run(Exec(Exec(s, a), b), Then(c, Done)) == Exec(Exec(Exec(s, a), b), c);
    assert Run(Exec(s, a), Then(b, Then(c, Done))) == Run(Exec(Exec(s, a), b), Then(c, Done));
  }

  lemma CallsOfFour(e0: Turn, e1: Turn, e2: Turn, e3: Turn, l: nat)
    requires e0.listener != l && e1.listener != l && e2.listener == l && e2.fn != NOOP && e3.listener == l && e3.fn != NOOP
    ensures Invocations([e0, e1, e2, e3], l) == 2
  {
    NeverInvoked([e0, e1], l);
    InvocationsNext([e0, e1], e2, l);
    InvocationsNext([e0, e1, e2], e3, l);
    assert [e0, e1] + [e2] == [e0, e1, e2] && [e0, e1, e2] + [e3] == [e0, e1, e2, e3];
  }

  /** Here the `once` listener is called twice: in the inner fire, and again in the outer one. */
  lemma ClearedOnceListenerRunsTwice()
    ensures ProperScript(CLEARING)
    ensures var s := Run(EMPTY, CLEARING);
            s.cells == [PLAIN, ONCE] && s.cleared == {0, 1} && Invocations(s.log, 1) == 2
  {
    hide Run, Exec, Invocations;
    BothRegistered();
    OuterFire();
    RunOfThree(EMPTY, On(CLICK, 1, Undefined, false), On(CLICK, 2, Undefined, true), Fire(CLICK, OUTER));
    CallsOfFour(Turn(1, 0, 1, false), Turn(2, 0, 1, false), Turn(2, 1, 2, false), Turn(1, 1, 2, false), 1);
  }

  // So is the other one: the turn of a cleared `once` listener takes off a listener that was registered later.

  const REPLACE: Script := Then(OffAll, Then(On(CLICK, 2, Undefined, false), Done))
  const REPLACING: Script :=
    Then(On(CLICK, 1, Undefined, false), Then(On(CLICK, 2, Undefined, true), Then(Fire(CLICK, Handler(REPLACE, NoMore)), Done)))

  /** Cleared, and a new listener registered with the function of the `once` listener; taken off again or not. */
  function Replaced(gone: bool, firing: nat, log: seq<Turn>): State {
    if gone then
      State([PLAIN, ONCE, Listener(NOOP, Undefined, false, CLICK)], [[0, 1], [2], []], map[CLICK := 2], firing, log, {2}, {0, 1})
    else
      State([PLAIN, ONCE, Listener(2, Undefined, false, CLICK)], [[0, 1], [2]], map[CLICK := 1], firing, log, {}, {0, 1})
  }

  lemma Replaces(log: seq<Turn>)
    ensures Run(Both(false, 1, log), REPLACE) == Replaced(false, 1, log)
  {
    hide Exec;
    Clears(1, log);
    assert Exec(Both(false, 1, log), OffAll) == Both(true, 1, log);
    AddsReplacement(log);
    assert Run(Both(true, 1, log), Then(On(CLICK, 2, Undefined, false), Done)) == Replaced(false, 1, log);
  }

  lemma AddsReplacement(log: seq<Turn>)
    ensures Exec(Both(true, 1, log), On(CLICK, 2, Undefined, false)) == Replaced(false, 1, log)
  {
    var s := Both(true, 1, log);
    assert Registered(s, CLICK) == [];
    assert [[0, 1]] + [[2]] == [[0, 1], [2]];
  }

  lemma StaleTurn(log: seq<Turn>)
    ensures BeginTurn(Replaced(false, 1, log), CLICK, 1) == Replaced(true, 1, log + [Turn(1, 1, 2, false)])
  {
    hide RemoveEach, Words;
    var s := Replaced(false, 1, log);
    OffWordIsOffOne(s, CLICK, 2, Undefined);
    assert Registered(s, CLICK) == [2] && Index(s, [2], 2, Undefined) == 0;
    assert [2][..0] + [2][1..] == [];
    assert s.arrays + [[]] == [[0, 1], [2], []];
  }

  /** Nobody ever took off the new listener, which is no `once` listener and was never called; it is off all the same. */
  lemma StaleTurnTakesOffAnother()
    ensures ProperScript(REPLACING)
    ensures var s := Run(EMPTY, REPLACING);
            && |s.cells| == 3 && !s.cells[2].once && s.cells[2].etype == CLICK && 2 !in s.cleared
            && 2 !in Registered(s, CLICK) && Invocations(s.log, 2) == 0
  {
    hide Run, Exec, BeginTurn, Invocations;
    var log := [] + [Turn(1, 0, 1, false)];
    BothRegistered();
    ReplacingFire();
    RunOfThree(EMPTY, On(CLICK, 1, Undefined, false), On(CLICK, 2, Undefined, true), Fire(CLICK, Handler(REPLACE, NoMore)));
    NeverInvoked(log + [Turn(1, 1, 2, false)], 2);
  }

  lemma ReplacingFire()
    ensures Exec(Both(false, 0, []), Fire(CLICK, Handler(REPLACE, NoMore)))
         == Replaced(true, 0, [] + [Turn(1, 0, 1, false)] + [Turn(1, 1, 2, false)])
  {
    hide BeginTurn, RemoveOne, Run;
    var log := [] + [Turn(1, 0, 1, false)];
    PlainTurn(1, []);
    Replaces(log);
    StaleTurn(log);
    assert Turns(Both(false, 1, []), CLICK, 0, 0, 2, Handler(REPLACE, NoMore)) == Turns(Replaced(false, 1, log), CLICK, 0, 1, 2, NoMore);
  }

  // And so is the third: a `once` listener whose type is no single word is never taken off by its turn.

  function Fires(t: EventType, n: nat): Script {
    if n == 0 then Done else Then(Fire(t, NoMore), Fires(t, n - 1))
  }

  function OnlyOnce(t: EventType, fn: Fn, firing: nat, log: seq<Turn>): State {
    State([Listener(fn, Undefined, true, t)], [[0]], map[t := 0], firing, log, {}, {})
  }

  /** Registered by `once`, with an object whose key has a blank: every fire calls it. */
  lemma SeveralWordsAreNeverOnce(t: EventType, fn: Fn, n: nat)
    requires !IsWord(t) && fn != NOOP
    ensures var s := Run(EMPTY, Then(On(t, fn, Undefined, true), Fires(t, n)));
            Invocations(s.log, 0) == n && Registered(s, t) == [0]
  {
    hide Run, Exec, Fires, Invocations;
    var first := On(t, fn, Undefined, true);
    OnlyListener(t, fn);
    RunThen(EMPTY, first, Fires(t, n));
    FiresCall(t, fn, n, []);
  }

  lemma RunThen(s: State, a: Act, rest: Script)
    ensures Run(s, Then(a, rest)) == Run(Exec(s, a), rest)
  {
  }

  lemma OnlyListener(t: EventType, fn: Fn)
    ensures Exec(EMPTY, On(t, fn, Undefined, true)) == OnlyOnce(t, fn, 0, []) && Invocations([], 0) == 0
  {
  }

  lemma {:induction false} FiresCall(t: EventType, fn: Fn, n: nat, log: seq<Turn>)
    requires !IsWord(t) && fn != NOOP
    ensures var s := Run(OnlyOnce(t, fn, 0, log), Fires(t, n));
            Invocations(s.log, 0) == Invocations(log, 0) + n && Registered(s, t) == [0]
    decreases n
  {
    hide Exec, Invocations, IsWord;
    if n > 0 {
      var more := log + [Turn(1, 0, fn, false)];
      FireCalls(t, fn, log);
      InvocationsNext(log, Turn(1, 0, fn, false), 0);
      FiresCall(t, fn, n - 1, more);
    }
  }

  lemma FireCalls(t: EventType, fn: Fn, log: seq<Turn>)
    requires !IsWord(t)
    ensures Exec(OnlyOnce(t, fn, 0, log), Fire(t, NoMore)) == OnlyOnce(t, fn, 0, log + [Turn(1, 0, fn, false)])
  {
    hide RemoveEach, IsWord, Words;
    var s := OnlyOnce(t, fn, 1, log);
    WordsOfWord(t);
    OthersOnly(s, t, Words(t), fn, Undefined);
    assert BeginTurn(s, t, 0) == OnlyOnce(t, fn, 1, log + [Turn(1, 0, fn, false)]);
    assert Turns(s, t, 0, 0, 1, NoMore) == OnlyOnce(t, fn, 1, log + [Turn(1, 0, fn, false)]);
  }

  lemma {:induction false} OthersOnly(s: State, t: EventType, words: seq<EventType>, fn: Fn, ctx: Context)
    requires t !in words && s.events.Keys == {t}
    ensures RemoveEach(s, words, fn, ctx) == s
    decreases |words|
  {
    if words != [] {
      assert words[|words| - 1] in words;
      OthersOnly(s, t, words[..|words| - 1], fn, ctx);
    }
  }
}
