/**
 * The client's pool of proxy profiles: a bounded channel refilled by concurrent callers of
 * `RebuildSmux`, as a machine that interleaves their critical sections.
 */
module ProfilePool {
  import opened Options

  datatype Profile = Profile(id: string)

  /** How far one caller of `RebuildSmux` has come. */
  datatype Caller =
    | Ready
    | Admitted
    | Fetching
    | Fetched(profile: Profile)
    | Refused
    | Polling
    | Holding(profile: Profile)
    | Pushing(profile: Profile)
    | Returned

  /** `proxyProfiles`, `initProfiles`, the lock that `LockArea` takes, and the callers. */
  datatype Pool = Pool(queue: seq<Profile>, count: int, locked: bool, callers: seq<Caller>) {

    function Moved(who: nat, to: Caller): Pool
      requires who < |callers|
    {
      this.(callers := callers[who := to])
    }
  }

  /** The caller that moves, and, when it waits for one, the server's answer. */
  datatype Turn = Turn(who: nat, reply: Option<Profile>)

  /**
   * One caller moves by one step; `None` when it has to wait. Every use of the lock but the push
   * is a section that ends at once; the push keeps the lock until the channel has room.
   */
  function Next(capacity: nat, pool: Pool, turn: Turn): Option<Pool> {
    if turn.who >= |pool.callers| then None else
    match pool.callers[turn.who]
    case Ready =>
      if pool.locked then None
      else Some(pool.Moved(turn.who, FirstStop(capacity, pool)))
    case Admitted =>
      if pool.locked then None else Some(pool.Moved(turn.who, Fetching).(count := pool.count + 1))
    case Fetching =>
      Some(pool.Moved(turn.who, if turn.reply.Some? then Fetched(turn.reply.value) else Refused))
    case Fetched(profile) =>
      if pool.locked then None else Some(pool.Moved(turn.who, Holding(profile)))
    case Refused =>
      if pool.locked then None else Some(pool.Moved(turn.who, Returned).(count := pool.count - 1))
    case Polling =>
      if pool.queue == [] then None
      else Some(pool.Moved(turn.who, Holding(pool.queue[0])).(queue := pool.queue[1..]))
    case Holding(profile) =>
      if pool.locked then None else Some(pool.Moved(turn.who, Pushing(profile)).(locked := true))
    case Pushing(profile) =>
      if |pool.queue| >= capacity then None
      else Some(pool.Moved(turn.who, Returned).(queue := pool.queue + [profile], locked := false))
    case Returned => None
  }

  /** The channel hands out its oldest profile and takes new ones at its end; only those two moves change it. */
  lemma ChannelIsFirstInFirstOut(capacity: nat, pool: Pool, turn: Turn)
    requires Next(capacity, pool, turn).Some?
    ensures turn.who < |pool.callers|
    ensures var after, caller := Next(capacity, pool, turn).value, pool.callers[turn.who];
            && (caller.Polling? ==>
                  pool.queue == [pool.queue[0]] + after.queue && after.callers[turn.who] == Holding(pool.queue[0]))
            && (caller.Pushing? ==> |pool.queue| < capacity && after.queue == pool.queue + [caller.profile])
            && (!caller.Polling? && !caller.Pushing? ==> after.queue == pool.queue)
  {
  }

  /** The pool after a run of turns; `None` when some turn of it is not possible. */
  function Run(capacity: nat, pool: Pool, turns: seq<Turn>): Option<Pool> {
    if turns == [] then Some(pool)
    else
      var before := Run(capacity, pool, turns[..|turns| - 1]);
      if before.None? then None else Next(capacity, before.value, turns[|turns| - 1])
  }

  /** A moment at which nobody is inside `RebuildSmux` and every counted profile is queued. */
  predicate Quiescent(capacity: nat, pool: Pool) {
    && pool.count == |pool.queue| <= capacity
    && !pool.locked
    && forall i :: 0 <= i < |pool.callers| ==> pool.callers[i] == Ready
  }

  /** A caller sits on the lock and cannot push. */
  predicate Blocked(capacity: nat, pool: Pool) {
    |pool.queue| >= capacity && exists i :: 0 <= i < |pool.callers| && pool.callers[i].Pushing?
  }

  /** Some caller has not returned, and none will ever move again. */
  ghost predicate Stuck(capacity: nat, pool: Pool) {
    && (exists i :: 0 <= i < |pool.callers| && pool.callers[i] != Returned)
    && forall turn :: Next(capacity, pool, turn).None?
  }

  // Counting callers

  function InFlight(caller: Caller): nat {
    if caller.Fetching? || caller.Fetched? || caller.Refused? || caller.Holding? || caller.Pushing? then 1 else 0
  }

  function MayStillCount(caller: Caller): nat {
    if caller.Ready? || caller.Admitted? then 1 else 0
  }

  function HoldsLock(caller: Caller): nat {
    if caller.Pushing? then 1 else 0
  }

  function Total(callers: seq<Caller>, weight: Caller -> nat): nat {
    if callers == [] then 0 else weight(callers[0]) + Total(callers[1..], weight)
  }

  lemma {:induction false} TotalMoves(callers: seq<Caller>, weight: Caller -> nat, who: nat, to: Caller)
    requires who < |callers|
    ensures Total(callers[who := to], weight) == Total(callers, weight) - weight(callers[who]) + weight(to)
    ensures weight(callers[who]) <= Total(callers, weight)
  {
    if who == 0 {
      assert callers[who := to][1..] == callers[1..];
    } else {
      TotalMoves(callers[1..], weight, who - 1, to);
      assert callers[who := to][1..] == callers[1..][who - 1 := to];
    }
  }

  lemma {:induction false} TotalOfEqual(callers: seq<Caller>, weight: Caller -> nat, each: Caller)
    requires forall i :: 0 <= i < |callers| ==> callers[i] == each
    ensures Total(callers, weight) == |callers| * weight(each)
  {
    if callers != [] {
      TotalOfEqual(callers[1..], weight, each);
    }
  }

  lemma {:induction false} TotalAtLeast(callers: seq<Caller>, weight: Caller -> nat, who: nat)
    requires who < |callers|
    ensures weight(callers[who]) <= Total(callers, weight)
  {
    TotalMoves(callers, weight, who, Returned);
  }

  lemma {:induction false} TotalIsPositive(callers: seq<Caller>, weight: Caller -> nat) returns (who: nat)
    requires Total(callers, weight) > 0
    ensures who < |callers| && weight(callers[who]) > 0
  {
    if weight(callers[0]) > 0 {
      who := 0;
    } else {
      var rest := TotalIsPositive(callers[1..], weight);
      who := rest + 1;
    }
  }

  // Accounting

  /**
   * The books balance: `initProfiles` is the queued profiles plus those that callers are fetching
   * or holding, and the lock is held exactly while one caller pushes.
   */
  ghost predicate Balanced(pool: Pool) {
    && pool.count == |pool.queue| + Total(pool.callers, InFlight)
    && Total(pool.callers, HoldsLock) == (if pool.locked then 1 else 0)
  }

  lemma NextKeepsBalance(capacity: nat, pool: Pool, turn: Turn)
    requires Balanced(pool) && Next(capacity, pool, turn).Some?
    ensures Balanced(Next(capacity, pool, turn).value)
  {
    hide Total;
    var next := Next(capacity, pool, turn).value;
    TotalMoves(pool.callers, InFlight, turn.who, next.callers[turn.who]);
    TotalMoves(pool.callers, HoldsLock, turn.who, next.callers[turn.who]);
  }

  /** No more callers can still raise the count than there is room for, or the pool is full for good. */
  ghost predicate Bounded(capacity: nat, pool: Pool) {
    || pool.count + Total(pool.callers, MayStillCount) <= capacity
    || Filled(capacity, pool)
  }

  /** The pool counts as full, and nobody fetches or is about to. */
  ghost predicate Filled(capacity: nat, pool: Pool) {
    && pool.count == capacity
    && forall i :: 0 <= i < |pool.callers| ==>
         var c := pool.callers[i]; !c.Admitted? && !c.Fetching? && !c.Fetched? && !c.Refused?
  }

  /** Whoever polls does so while profiles are counted, unless the pool has no capacity at all. */
  ghost predicate PollersCanHope(capacity: nat, pool: Pool) {
    (exists i :: 0 <= i < |pool.callers| && pool.callers[i].Polling?) ==> Filled(capacity, pool)
  }

  ghost predicate Safe(capacity: nat, pool: Pool) {
    Balanced(pool) && Bounded(capacity, pool) && PollersCanHope(capacity, pool)
  }

  lemma NextStaysBounded(capacity: nat, pool: Pool, turn: Turn)
    requires Next(capacity, pool, turn).Some?
    requires pool.count + Total(pool.callers, MayStillCount) <= capacity
    requires forall i :: 0 <= i < |pool.callers| ==> !pool.callers[i].Polling?
    ensures var next := Next(capacity, pool, turn).value;
            && next.count + Total(next.callers, MayStillCount) <= capacity
            && forall i :: 0 <= i < |next.callers| ==> !next.callers[i].Polling?
  {
    hide Total;
    var next := Next(capacity, pool, turn).value;
    TotalMoves(pool.callers, MayStillCount, turn.who, next.callers[turn.who]);
  }

  lemma NextKeepsSafe(capacity: nat, pool: Pool, turn: Turn)
    requires Safe(capacity, pool) && Next(capacity, pool, turn).Some?
    ensures Safe(capacity, Next(capacity, pool, turn).value)
  {
    hide Next, Balanced;
    NextKeepsBalance(capacity, pool, turn);
    if Filled(capacity, pool) {
      NextKeepsFilled(capacity, pool, turn);
    } else {
      NextStaysBounded(capacity, pool, turn);
    }
  }

  lemma {:induction false} RunKeepsSafe(capacity: nat, pool: Pool, turns: seq<Turn>)
    requires Safe(capacity, pool) && Run(capacity, pool, turns).Some?
    ensures Safe(capacity, Run(capacity, pool, turns).value)
  {
    if turns != [] {
      var before := turns[..|turns| - 1];
      RunKeepsSafe(capacity, pool, before);
      NextKeepsSafe(capacity, Run(capacity, pool, before).value, turns[|turns| - 1]);
    }
  }

  /** In a safe pool the count never passes the capacity, and a push made under the lock has room. */
  lemma SafeNeverBlocks(capacity: nat, pool: Pool)
    requires Safe(capacity, pool)
    ensures pool.count <= capacity
    ensures !Blocked(capacity, pool)
  {
    if i :| 0 <= i < |pool.callers| && pool.callers[i].Pushing? {
      TotalAtLeast(pool.callers, InFlight, i);
    }
  }

  /** While a caller of a safe pool has not returned, some caller can move. */
  lemma SafeNeverSticks(capacity: nat, pool: Pool)
    requires capacity > 0 && Safe(capacity, pool)
    ensures !Stuck(capacity, pool)
  {
    SafeNeverBlocks(capacity, pool);
    if pool.locked {
      var who := TotalIsPositive(pool.callers, HoldsLock);
      assert Next(capacity, pool, Turn(who, None)).Some?;
    } else if who :| 0 <= who < |pool.callers| && pool.callers[who] != Returned {
      if Next(capacity, pool, Turn(who, None)).None? {
        assert Filled(capacity, pool) && pool.queue == [];
        var other := TotalIsPositive(pool.callers, InFlight);
        assert Next(capacity, pool, Turn(other, None)).Some?;
      }
    }
  }

  // The run that goes wrong

  lemma {:induction false} RunThen(capacity: nat, pool: Pool, first: seq<Turn>, more: seq<Turn>)
    requires Run(capacity, pool, first).Some?
    ensures Run(capacity, pool, first + more) == Run(capacity, Run(capacity, pool, first).value, more)
  {
    if more == [] {
      assert first + more == first;
    } else {
      var m := more[..|more| - 1];
      RunThen(capacity, pool, first, m);
      assert (first + more)[..|first + more| - 1] == first + m;
    }
  }

  /** `k` callers have all read the count before any of them changes anything. */
  lemma {:induction false} AllRead(capacity: nat, pool: Pool, k: nat) returns (turns: seq<Turn>)
    requires Quiescent(capacity, pool) && k <= |pool.callers|
    ensures Run(capacity, pool, turns) ==
            Some(pool.(callers := seq(k, i => FirstStop(capacity, pool)) + pool.callers[k..]))
  {
    hide Run, Next, FirstStop;
    turns := [];
    RunNext(capacity, pool, turns, Turn(0, None));
    if k == 0 {
      assert pool.callers == seq(0, i => FirstStop(capacity, pool)) + pool.callers[0..];
    } else {
      var before := AllRead(capacity, pool, k - 1);
      turns := before + [Turn(k - 1, None)];
      RunNext(capacity, pool, before, Turn(k - 1, None));
      var callers := seq(k - 1, i => FirstStop(capacity, pool)) + pool.callers[k - 1..];
      assert callers[k - 1 := FirstStop(capacity, pool)]
          == seq(k, i => FirstStop(capacity, pool)) + pool.callers[k..];
      ReadyReads(capacity, pool.(callers := callers), k - 1);
      SameFirstStop(capacity, pool, callers);
    }
  }

  lemma ReadyReads(capacity: nat, pool: Pool, who: nat)
    requires who < |pool.callers| && pool.callers[who] == Ready && !pool.locked
    ensures Next(capacity, pool, Turn(who, None))
         == Some(pool.(callers := pool.callers[who := FirstStop(capacity, pool)]))
  {
  }

  lemma SameFirstStop(capacity: nat, pool: Pool, callers: seq<Caller>)
    ensures FirstStop(capacity, pool.(callers := callers)) == FirstStop(capacity, pool)
  {
  }

  /** What a caller does once it has read the count. */
  function FirstStop(capacity: nat, pool: Pool): Caller {
    if pool.count >= capacity then Polling else Admitted
  }

  /** The turns of one admitted caller up to the point where it holds the lock. */
  function Refill(who: nat, profile: Profile): seq<Turn> {
    [Turn(who, None), Turn(who, Some(profile)), Turn(who, None), Turn(who, None)]
  }

  lemma RefillRuns(capacity: nat, pool: Pool, who: nat, profile: Profile)
    requires who < |pool.callers| && pool.callers[who] == Admitted && !pool.locked
    ensures Run(capacity, pool, Refill(who, profile)) ==
            Some(Pool(pool.queue, pool.count + 1, true, pool.callers[who := Pushing(profile)]))
  {
    var turns := Refill(who, profile);
    var one := pool.Moved(who, Fetching).(count := pool.count + 1);
    var two := one.Moved(who, Fetched(profile));
    var three := two.Moved(who, Holding(profile));
    assert turns[..3][..2] == turns[..2] && turns[..2][..1] == turns[..1] && turns[..1][..0] == [];
    assert Run(capacity, pool, turns[..1]) == Some(one);
    assert Run(capacity, pool, turns[..2]) == Some(two);
    assert Run(capacity, pool, turns[..3]) == Some(three);
    assert three.Moved(who, Pushing(profile)).callers == pool.callers[who := Pushing(profile)];
  }

  lemma RunNext(capacity: nat, pool: Pool, turns: seq<Turn>, turn: Turn)
    ensures Run(capacity, pool, []) == Some(pool)
    ensures Run(capacity, pool, turns).Some? ==>
              Run(capacity, pool, turns + [turn]) == Next(capacity, Run(capacity, pool, turns).value, turn)
  {
    hide Next;
    assert (turns + [turn])[..|turns|] == turns;
  }

  lemma PushRuns(capacity: nat, pool: Pool, who: nat, profile: Profile)
    requires who < |pool.callers| && pool.callers[who] == Pushing(profile) && |pool.queue| < capacity
    ensures var after := Next(capacity, pool, Turn(who, None));
            && after.Some? && |after.value.queue| == |pool.queue| + 1 && !after.value.locked
            && after.value.callers == pool.callers[who := Returned]
  {
  }

  /** After `k` of the admitted callers went all the way, `k` more profiles are queued. */
  lemma {:induction false} AllPush(capacity: nat, pool: Pool, profile: Profile, k: nat) returns (turns: seq<Turn>)
    requires k <= |pool.callers| && !pool.locked && |pool.queue| + k <= capacity
    requires forall i :: 0 <= i < k ==> pool.callers[i] == Admitted
    ensures Run(capacity, pool, turns).Some?
    ensures var after := Run(capacity, pool, turns).value;
            && |after.queue| == |pool.queue| + k && !after.locked
            && |after.callers| == |pool.callers| && after.callers[k..] == pool.callers[k..]
            && forall i :: 0 <= i < k ==> after.callers[i] == Returned
  {
    hide Run, Next, Refill;
    turns := [];
    RunNext(capacity, pool, turns, Turn(0, None));
    if k > 0 {
      var before := AllPush(capacity, pool, profile, k - 1);
      var after := Run(capacity, pool, before).value;
      assert after.callers[k - 1] == after.callers[k - 1..][0] == pool.callers[k - 1..][0];
      var filling := before + Refill(k - 1, profile);
      RunThen(capacity, pool, before, Refill(k - 1, profile));
      RefillRuns(capacity, after, k - 1, profile);
      turns := filling + [Turn(k - 1, None)];
      RunNext(capacity, pool, filling, Turn(k - 1, None));
      PushRuns(capacity, Run(capacity, pool, filling).value, k - 1, profile);
      assert after.callers[k..] == after.callers[k - 1..][1..] == pool.callers[k - 1..][1..];
    }
  }

  lemma JammedIsStuck(capacity: nat, pool: Pool, who: nat)
    requires pool.locked && |pool.queue| >= capacity
    requires who < |pool.callers| && pool.callers[who].Pushing?
    requires forall i :: 0 <= i < |pool.callers| ==>
               pool.callers[i] == Ready || pool.callers[i] == Returned || pool.callers[i].Pushing?
    ensures Blocked(capacity, pool) && Stuck(capacity, pool)
  {
    forall turn ensures Next(capacity, pool, turn).None? {
    }
  }

  /**
   * The capacity is read in one critical section and the count raised in another, so one caller
   * too many can be admitted: it ends up holding the lock in front of a full channel, and nobody
   * can ever move again.
   */
  lemma OverfilledPoolSticks(capacity: nat, pool: Pool, profile: Profile) returns (turns: seq<Turn>)
    requires Quiescent(capacity, pool)
    requires pool.count < capacity < pool.count + |pool.callers|
    ensures Run(capacity, pool, turns).Some?
    ensures Blocked(capacity, Run(capacity, pool, turns).value)
    ensures Stuck(capacity, Run(capacity, pool, turns).value)
  {
    hide Run, Next, Refill;
    var room := capacity - pool.count;
    var read := AllRead(capacity, pool, room + 1);
    var admitted := Run(capacity, pool, read).value;
    var push := AllPush(capacity, admitted, profile, room);
    var full := Run(capacity, admitted, push).value;
    assert full.callers[room] == full.callers[room..][0] == admitted.callers[room..][0] == Admitted;
    RefillRuns(capacity, full, room, profile);
    RunThen(capacity, pool, read, push);
    turns := read + push + Refill(room, profile);
    RunThen(capacity, pool, read + push, Refill(room, profile));
    var end := Run(capacity, pool, turns).value;
    assert end.callers[room] == Pushing(profile);
    forall i | 0 <= i < |end.callers|
      ensures end.callers[i] == Ready || end.callers[i] == Returned || end.callers[i] == Pushing(profile)
    {
      if i > room {
        assert full.callers[i] == full.callers[room..][i - room] == admitted.callers[room..][i - room];
      }
    }
    JammedIsStuck(capacity, end, room);
  }

  /**
   * From a quiet moment, callers of `RebuildSmux` can never stop each other for good exactly when
   * the pool already counts as full (of at least one profile), or there is room for everyone.
   */
  lemma PoolIsSafeExactlyWhen(capacity: nat, pool: Pool)
    requires Quiescent(capacity, pool)
    ensures (forall turns :: Run(capacity, pool, turns).Some? ==>
                               !Blocked(capacity, Run(capacity, pool, turns).value)
                               && !Stuck(capacity, Run(capacity, pool, turns).value))
            <==> (pool.count == capacity > 0 || pool.count + |pool.callers| <= capacity)
  {
    if pool.count == capacity > 0 || pool.count + |pool.callers| <= capacity {
      QuiescentIsSafe(capacity, pool);
      forall turns | Run(capacity, pool, turns).Some?
        ensures !Blocked(capacity, Run(capacity, pool, turns).value)
        ensures !Stuck(capacity, Run(capacity, pool, turns).value)
      {
        RunKeepsSafe(capacity, pool, turns);
        SafeNeverBlocks(capacity, Run(capacity, pool, turns).value);
        if capacity > 0 {
          SafeNeverSticks(capacity, Run(capacity, pool, turns).value);
        } else {
          RunKeepsCallers(capacity, pool, turns);
        }
      }
    } else if capacity == 0 {
      var turns := AllRead(capacity, pool, |pool.callers|);
      assert Run(capacity, pool, turns).value.callers[0] == Polling;
      assert Stuck(capacity, Run(capacity, pool, turns).value);
    } else {
      var turns := OverfilledPoolSticks(capacity, pool, Profile(""));
    }
  }

  lemma {:induction false} RunKeepsCallers(capacity: nat, pool: Pool, turns: seq<Turn>)
    requires Run(capacity, pool, turns).Some?
    ensures |Run(capacity, pool, turns).value.callers| == |pool.callers|
  {
    if turns != [] {
      RunKeepsCallers(capacity, pool, turns[..|turns| - 1]);
    }
  }

  /** In those cases the count is always what is queued or in flight, and never passes the capacity. */
  lemma CountStaysWithinCapacity(capacity: nat, pool: Pool, turns: seq<Turn>)
    requires Quiescent(capacity, pool) && Run(capacity, pool, turns).Some?
    requires pool.count == capacity || pool.count + |pool.callers| <= capacity
    ensures var now := Run(capacity, pool, turns).value;
            |now.queue| + Total(now.callers, InFlight) == now.count <= capacity
  {
    QuiescentIsSafe(capacity, pool);
    RunKeepsSafe(capacity, pool, turns);
    SafeNeverBlocks(capacity, Run(capacity, pool, turns).value);
  }

  lemma QuiescentIsSafe(capacity: nat, pool: Pool)
    requires Quiescent(capacity, pool)
    requires pool.count == capacity || pool.count + |pool.callers| <= capacity
    ensures Safe(capacity, pool)
  {
    QuiescentIsBalanced(capacity, pool);
    TotalOfEqual(pool.callers, MayStillCount, Ready);
  }

  // Which profiles there are

  function InHand(callers: seq<Caller>): multiset<Profile> {
    if callers == [] then multiset{}
    else Carried(callers[0]) + InHand(callers[1..])
  }

  function Carried(caller: Caller): multiset<Profile> {
    if caller.Fetched? || caller.Holding? || caller.Pushing? then multiset{caller.profile} else multiset{}
  }

  /** All profiles of the pool, queued or carried by a caller. */
  function Profiles(pool: Pool): multiset<Profile> {
    multiset(pool.queue) + InHand(pool.callers)
  }

  /** The profiles that the server handed out during a run. */
  function Received(capacity: nat, pool: Pool, turns: seq<Turn>): multiset<Profile> {
    if turns == [] then multiset{}
    else
      var before, last := turns[..|turns| - 1], turns[|turns| - 1];
      var so := Received(capacity, pool, before);
      match Run(capacity, pool, before)
      case Some(p) => so + ReceivedBy(p, last)
      case None => so
  }

  lemma {:induction false} InHandMoves(callers: seq<Caller>, who: nat, to: Caller)
    requires who < |callers|
    ensures InHand(callers[who := to]) + Carried(callers[who]) == InHand(callers) + Carried(to)
  {
    hide InHand, Carried;
    InHandFirst(callers);
    InHandFirst(callers[who := to]);
    if who == 0 {
      assert callers[who := to][1..] == callers[1..];
    } else {
      InHandMoves(callers[1..], who - 1, to);
      assert callers[who := to][1..] == callers[1..][who - 1 := to];
      AddToBoth(InHand(callers[1..][who - 1 := to]), Carried(callers[who]), InHand(callers[1..]), Carried(to),
                Carried(callers[0]));
    }
  }

  lemma InHandFirst(callers: seq<Caller>)
    requires callers != []
    ensures InHand(callers) == Carried(callers[0]) + InHand(callers[1..])
  {
    hide Carried;
  }

  lemma AddToBoth(a: multiset<Profile>, b: multiset<Profile>, c: multiset<Profile>, d: multiset<Profile>,
                  more: multiset<Profile>)
    requires a + b == c + d
    ensures (more + a) + b == (more + c) + d
  {
    assert (more + a) + b == more + (a + b) == more + (c + d) == (more + c) + d;
  }

  /** What one turn takes from the server. */
  function ReceivedBy(pool: Pool, turn: Turn): multiset<Profile> {
    if turn.who < |pool.callers| && pool.callers[turn.who].Fetching? && turn.reply.Some? then
      multiset{turn.reply.value}
    else
      multiset{}
  }

  lemma NextMovesOne(capacity: nat, pool: Pool, turn: Turn)
    requires Next(capacity, pool, turn).Some?
    ensures turn.who < |pool.callers|
    ensures var next := Next(capacity, pool, turn).value;
            && |next.callers| == |pool.callers|
            && next.callers == pool.callers[turn.who := next.callers[turn.who]]
            && Handed(pool, next, turn)
  {
    hide Carried;
  }

  /** Where the moving caller's profile came from and went to. */
  predicate Handed(pool: Pool, next: Pool, turn: Turn)
    requires turn.who < |pool.callers| == |next.callers|
  {
    var was, now := pool.callers[turn.who], next.callers[turn.who];
    if was.Polling? then now.Holding? && pool.queue == [now.profile] + next.queue
    else if was.Pushing? then now.Returned? && next.queue == pool.queue + [was.profile]
    else
      && next.queue == pool.queue
      && (now.Fetched? ==> was.Fetching? && turn.reply == Some(now.profile))
      && (now.Refused? ==> turn.reply == None)
      && (was.Fetching? ==> now.Fetched? || now.Refused?)
      && (now.Holding? ==> was == Fetched(now.profile))
      && (was.Fetched? ==> now.Holding?)
      && (now.Pushing? ==> was == Holding(now.profile))
      && (was.Holding? ==> now.Pushing?)
  }

  lemma HandedBalances(pool: Pool, next: Pool, turn: Turn)
    requires turn.who < |pool.callers| == |next.callers| && Handed(pool, next, turn)
    ensures multiset(next.queue) + Carried(next.callers[turn.who])
            == multiset(pool.queue) + Carried(pool.callers[turn.who]) + ReceivedBy(pool, turn)
  {
  }

  lemma NextConserves(capacity: nat, pool: Pool, turn: Turn)
    requires Next(capacity, pool, turn).Some?
    ensures Profiles(Next(capacity, pool, turn).value) == Profiles(pool) + ReceivedBy(pool, turn)
  {
    hide Next, Carried, InHand, ReceivedBy, Handed;
    var next := Next(capacity, pool, turn).value;
    NextMovesOne(capacity, pool, turn);
    HandedBalances(pool, next, turn);
    InHandMoves(pool.callers, turn.who, next.callers[turn.who]);
    Exchange(multiset(next.queue), Carried(next.callers[turn.who]), InHand(next.callers),
             multiset(pool.queue), Carried(pool.callers[turn.who]), InHand(pool.callers), ReceivedBy(pool, turn));
  }

  lemma Exchange(q': multiset<Profile>, c': multiset<Profile>, h': multiset<Profile>,
                 q: multiset<Profile>, c: multiset<Profile>, h: multiset<Profile>, got: multiset<Profile>)
    requires q' + c' == q + c + got
    requires h' + c == h + c'
    ensures q' + h' == q + h + got
  {
    forall p ensures (q' + h')[p] == (q + h + got)[p] {
      assert (q' + c')[p] == (q + c + got)[p] && (h' + c)[p] == (h + c')[p];
    }
  }

  /** No profile is lost or copied: there are always those of the start and those received since. */
  lemma {:induction false} RunConserves(capacity: nat, pool: Pool, turns: seq<Turn>)
    requires Run(capacity, pool, turns).Some?
    ensures Profiles(Run(capacity, pool, turns).value) == Profiles(pool) + Received(capacity, pool, turns)
  {
    if turns != [] {
      var before := turns[..|turns| - 1];
      RunConserves(capacity, pool, before);
      NextConserves(capacity, Run(capacity, pool, before).value, turns[|turns| - 1]);
    }
  }

  lemma NextKeepsFilled(capacity: nat, pool: Pool, turn: Turn)
    requires Filled(capacity, pool) && Next(capacity, pool, turn).Some?
    ensures Filled(capacity, Next(capacity, pool, turn).value)
    ensures ReceivedBy(pool, turn) == multiset{}
  {
    assert turn.who < |pool.callers|;
    var mover := pool.callers[turn.who];
    assert !mover.Admitted? && !mover.Fetching? && !mover.Fetched? && !mover.Refused?;
  }

  /** Once the pool counts as full, no run fetches anything: the same profiles only go round. */
  lemma {:induction false} FullPoolOnlyCirculates(capacity: nat, pool: Pool, turns: seq<Turn>)
    requires Balanced(pool) && Filled(capacity, pool) && Run(capacity, pool, turns).Some?
    ensures Balanced(Run(capacity, pool, turns).value) && Filled(capacity, Run(capacity, pool, turns).value)
    ensures Profiles(Run(capacity, pool, turns).value) == Profiles(pool)
  {
    hide Next, Profiles, ReceivedBy, Balanced, Filled;
    if turns != [] {
      var before := turns[..|turns| - 1];
      var last, middle := turns[|turns| - 1], Run(capacity, pool, before).value;
      FullPoolOnlyCirculates(capacity, pool, before);
      NextKeepsBalance(capacity, middle, last);
      NextKeepsFilled(capacity, middle, last);
      NextConserves(capacity, middle, last);
    }
  }

  /** When every caller has returned, the channel holds as many profiles as are counted. */
  lemma AllReturned(capacity: nat, pool: Pool, turns: seq<Turn>, end: Pool)
    requires Quiescent(capacity, pool) && Run(capacity, pool, turns) == Some(end)
    requires forall i :: 0 <= i < |end.callers| ==> end.callers[i] == Returned
    ensures end.count == |end.queue|
    ensures multiset(end.queue) == multiset(pool.queue) + Received(capacity, pool, turns)
  {
    hide Run, Received, Next, Total, InHand;
    RunConserves(capacity, pool, turns);
    QuiescentIsBalanced(capacity, pool);
    RunKeepsBalance(capacity, pool, turns);
    EmptyHands(pool.callers);
    TotalOfEqual(end.callers, InFlight, Returned);
    EmptyHands(end.callers);
    assert Total(end.callers, InFlight) == 0;
    assert multiset(end.queue) == Profiles(end);
    assert multiset(pool.queue) == Profiles(pool);
  }

  lemma QuiescentIsBalanced(capacity: nat, pool: Pool)
    requires Quiescent(capacity, pool)
    ensures Balanced(pool)
  {
    TotalOfEqual(pool.callers, InFlight, Ready);
    TotalOfEqual(pool.callers, HoldsLock, Ready);
  }

  lemma {:induction false} EmptyHands(callers: seq<Caller>)
    requires forall i :: 0 <= i < |callers| ==> Carried(callers[i]) == multiset{}
    ensures InHand(callers) == multiset{}
  {
    if callers != [] {
      EmptyHands(callers[1..]);
    }
  }

  /** Under every interleaving, the count is the queued profiles plus those in flight. */
  lemma {:induction false} RunKeepsBalance(capacity: nat, pool: Pool, turns: seq<Turn>)
    requires Balanced(pool) && Run(capacity, pool, turns).Some?
    ensures Balanced(Run(capacity, pool, turns).value)
  {
    if turns != [] {
      var before := turns[..|turns| - 1];
      RunKeepsBalance(capacity, pool, before);
      NextKeepsBalance(capacity, Run(capacity, pool, before).value, turns[|turns| - 1]);
    }
  }

  // How long it takes

  /** The moves that a caller has at most before it. */
  function MovesLeft(caller: Caller): nat {
    match caller
    case Ready => 6
    case Admitted => 5
    case Fetching => 4
    case Fetched(_) => 3
    case Polling => 3
    case Holding(_) => 2
    case Pushing(_) => 1
    case Refused => 1
    case Returned => 0
  }

  lemma NextTakesMove(capacity: nat, pool: Pool, turn: Turn)
    requires Next(capacity, pool, turn).Some?
    ensures Total(Next(capacity, pool, turn).value.callers, MovesLeft) < Total(pool.callers, MovesLeft)
  {
    hide Total;
    var next := Next(capacity, pool, turn).value;
    TotalMoves(pool.callers, MovesLeft, turn.who, next.callers[turn.who]);
  }

  /** No run has more turns than its callers have moves, in a safe pool or not. */
  lemma {:induction false} RunIsBounded(capacity: nat, pool: Pool, turns: seq<Turn>)
    requires Run(capacity, pool, turns).Some?
    ensures |turns| + Total(Run(capacity, pool, turns).value.callers, MovesLeft) <= Total(pool.callers, MovesLeft)
    ensures |turns| <= 6 * |pool.callers|
  {
    hide Next, Total;
    AtMostSixEach(pool.callers);
    if turns != [] {
      var before := turns[..|turns| - 1];
      RunIsBounded(capacity, pool, before);
      NextTakesMove(capacity, Run(capacity, pool, before).value, turns[|turns| - 1]);
    }
  }

  lemma {:induction false} AtMostSixEach(callers: seq<Caller>)
    ensures Total(callers, MovesLeft) <= 6 * |callers|
  {
    if callers != [] {
      AtMostSixEach(callers[1..]);
    }
  }

  predicate AllDone(pool: Pool) {
    forall i :: 0 <= i < |pool.callers| ==> pool.callers[i] == Returned
  }

  /** The callers of a safe pool can all return. */
  lemma {:induction false} SafePoolFinishes(capacity: nat, pool: Pool) returns (turns: seq<Turn>)
    requires capacity > 0 && Safe(capacity, pool)
    ensures Run(capacity, pool, turns).Some? && AllDone(Run(capacity, pool, turns).value)
    decreases Total(pool.callers, MovesLeft)
  {
    hide Next, Total, Safe, Run;
    if AllDone(pool) {
      turns := [];
      RunOfNone(capacity, pool);
    } else {
      SafeNeverSticks(capacity, pool);
      var turn :| Next(capacity, pool, turn).Some?;
      NextKeepsSafe(capacity, pool, turn);
      NextTakesMove(capacity, pool, turn);
      var more := SafePoolFinishes(capacity, Next(capacity, pool, turn).value);
      RunOfOne(capacity, pool, turn);
      RunThen(capacity, pool, [turn], more);
      turns := [turn] + more;
    }
  }

  lemma RunOfNone(capacity: nat, pool: Pool)
    ensures Run(capacity, pool, []) == Some(pool)
  {
  }

  lemma RunOfOne(capacity: nat, pool: Pool, turn: Turn)
    ensures Run(capacity, pool, [turn]) == Next(capacity, pool, turn)
  {
    hide Next;
    assert [turn][..0] == [];
    RunOfNone(capacity, pool);
  }

  /**
   * From a quiet moment of a pool that is full or has room for everyone, every run goes on to one
   * at whose end all callers have returned and the channel holds exactly the counted profiles.
   */
  lemma EveryRunFinishes(capacity: nat, pool: Pool, turns: seq<Turn>) returns (more: seq<Turn>)
    requires capacity > 0 && Quiescent(capacity, pool) && Run(capacity, pool, turns).Some?
    requires pool.count == capacity || pool.count + |pool.callers| <= capacity
    ensures Run(capacity, pool, turns + more).Some?
    ensures var end := Run(capacity, pool, turns + more).value;
            && AllDone(end) && end.count == |end.queue| <= capacity && !end.locked
            && multiset(end.queue) == multiset(pool.queue) + Received(capacity, pool, turns + more)
  {
    hide Next, Total, Safe, Run, Received;
    QuiescentIsSafe(capacity, pool);
    RunKeepsSafe(capacity, pool, turns);
    more := SafePoolFinishes(capacity, Run(capacity, pool, turns).value);
    RunThen(capacity, pool, turns, more);
    var end := Run(capacity, pool, turns + more).value;
    AllReturned(capacity, pool, turns + more, end);
    CountStaysWithinCapacity(capacity, pool, turns + more);
    RunKeepsSafe(capacity, pool, turns + more);
    NobodyHoldsLock(capacity, end);
  }

  lemma NobodyHoldsLock(capacity: nat, pool: Pool)
    requires Safe(capacity, pool) && AllDone(pool)
    ensures !pool.locked
  {
    TotalOfEqual(pool.callers, HoldsLock, Returned);
  }
}
