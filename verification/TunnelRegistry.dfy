/** The server's list of tunnels, its error counts per protocol, and the protocol it tries next. */
module TunnelRegistry {
  import opened Sequences

  datatype Protocol = Tls | Kcp | Quic

  datatype Tunnel = Tunnel(id: string, protocol: Protocol)

  datatype Counts = Counts(tls: nat, kcp: nat, quic: nat) {
    function Of(protocol: Protocol): nat {
      match protocol
      case Tls => tls
      case Kcp => kcp
      case Quic => quic
    }

    function Plus(protocol: Protocol): Counts {
      match protocol
      case Tls => this.(tls := tls + 1)
      case Kcp => this.(kcp := kcp + 1)
      case Quic => this.(quic := quic + 1)
    }
  }

  datatype State = State(tunnels: seq<Tunnel>, errors: Counts)

  /** A tunnel is added, a name is deleted, or a tunnel is built by the error counts, with a given name. */
  datatype Event = Added(tunnel: Tunnel) | Deleted(id: string) | Built(id: string)

  /** The protocol that failed less often than TLS, QUIC before KCP; else TLS. */
  function Choice(errors: Counts): Protocol {
    if errors.quic < errors.tls then Quic else if errors.kcp < errors.tls then Kcp else Tls
  }

  function Others(tunnels: seq<Tunnel>, id: string): seq<Tunnel> {
    if tunnels == [] then []
    else
      var last := tunnels[|tunnels| - 1];
      Others(tunnels[..|tunnels| - 1], id) + (if last.id == id then [] else [last])
  }

  /** Every deleted tunnel counts as an error of its protocol. */
  function Blamed(tunnels: seq<Tunnel>, id: string, errors: Counts): Counts {
    if tunnels == [] then errors
    else
      var last, so := tunnels[|tunnels| - 1], Blamed(tunnels[..|tunnels| - 1], id, errors);
      if last.id == id then so.Plus(last.protocol) else so
  }

  function Apply(state: State, event: Event): State {
    match event
    case Added(tunnel) => state.(tunnels := state.tunnels + [tunnel])
    case Deleted(id) => State(Others(state.tunnels, id), Blamed(state.tunnels, id, state.errors))
    case Built(id) => state.(tunnels := state.tunnels + [Tunnel(id, Choice(state.errors))])
  }

  /** A list of tunnels and error counts after a run of events. */
  function From(start: State, events: seq<Event>): State {
    if events == [] then start else Apply(From(start, events[..|events| - 1]), events[|events| - 1])
  }

  /** The server when it starts. */
  const EMPTY := State([], Counts(0, 0, 0))

  // Conservation

  /** All tunnels that a run lists anew, in order. */
  function Listed(start: State, events: seq<Event>): seq<Tunnel> {
    if events == [] then []
    else
      var before, last := events[..|events| - 1], events[|events| - 1];
      Listed(start, before) +
      match last
      case Added(tunnel) => [tunnel]
      case Built(id) => [Tunnel(id, Choice(From(start, before).errors))]
      case Deleted(_) => []
  }

  function Number(tunnels: seq<Tunnel>, protocol: Protocol): nat {
    if tunnels == [] then 0
    else
      Number(tunnels[..|tunnels| - 1], protocol) + (if tunnels[|tunnels| - 1].protocol == protocol then 1 else 0)
  }

  lemma NumberNext(tunnels: seq<Tunnel>, tunnel: Tunnel, protocol: Protocol)
    ensures Number(tunnels + [tunnel], protocol)
         == Number(tunnels, protocol) + (if tunnel.protocol == protocol then 1 else 0)
  {
    assert (tunnels + [tunnel])[..|tunnels|] == tunnels;
  }

  /** What is deleted from the list is blamed, protocol by protocol. */
  lemma {:induction false} DeletionConserves(tunnels: seq<Tunnel>, id: string, errors: Counts, protocol: Protocol)
    ensures Number(Others(tunnels, id), protocol) + Blamed(tunnels, id, errors).Of(protocol)
         == Number(tunnels, protocol) + errors.Of(protocol)
  {
    if tunnels != [] {
      var before, last := tunnels[..|tunnels| - 1], tunnels[|tunnels| - 1];
      DeletionConserves(before, id, errors, protocol);
      NumberNext(Others(before, id), last, protocol);
      assert Others(before, id) + [] == Others(before, id);
    }
  }

  /** In every run, the tunnels listed before or anew and the errors of before are those still listed and the errors of then. */
  lemma {:induction false} RunConserves(start: State, events: seq<Event>, protocol: Protocol)
    ensures Number(start.tunnels, protocol) + Number(Listed(start, events), protocol) + start.errors.Of(protocol)
         == Number(From(start, events).tunnels, protocol) + From(start, events).errors.Of(protocol)
  {
    hide Number, Others, Blamed, Choice;
    NumberOfNone(protocol);
    if events != [] {
      var before, last := events[..|events| - 1], events[|events| - 1];
      var state, so := From(start, before), Listed(start, before);
      RunConserves(start, before, protocol);
      match last {
        case Added(tunnel) =>
          NumberNext(so, tunnel, protocol);
          NumberNext(state.tunnels, tunnel, protocol);
        case Built(id) =>
          NumberNext(so, Tunnel(id, Choice(state.errors)), protocol);
          NumberNext(state.tunnels, Tunnel(id, Choice(state.errors)), protocol);
        case Deleted(id) =>
          DeletionConserves(state.tunnels, id, state.errors, protocol);
          assert so + [] == so;
      }
    }
  }

  lemma NumberOfNone(protocol: Protocol)
    ensures Number([], protocol) == 0
  {
  }

  /** Deletion leaves the tunnels of other names, as often as before and in their order. */
  lemma {:induction false} OthersKeepOrder(tunnels: seq<Tunnel>, id: string)
    ensures IsSubsequence(Others(tunnels, id), tunnels)
    ensures forall t :: multiset(Others(tunnels, id))[t] == if t.id == id then 0 else multiset(tunnels)[t]
  {
    hide IsSubsequence, Others;
    OthersNext(tunnels, id);
    if tunnels == [] {
      SubsequenceRefl<Tunnel>([]);
    } else {
      var before, last := tunnels[..|tunnels| - 1], tunnels[|tunnels| - 1];
      OthersKeepOrder(before, id);
      assert tunnels == before + [last];
      if last.id == id {
        SubsequenceSkip(Others(before, id), before, last);
      } else {
        SubsequenceKeep(Others(before, id), before, last);
      }
    }
  }

  lemma OthersNext(tunnels: seq<Tunnel>, id: string)
    ensures tunnels == [] ==> Others(tunnels, id) == []
    ensures tunnels != [] ==>
              var before, last := tunnels[..|tunnels| - 1], tunnels[|tunnels| - 1];
              Others(tunnels, id) == if last.id == id then Others(before, id) else Others(before, id) + [last]
  {
  }

  lemma PrefixNext(tunnels: seq<Tunnel>, i: nat, next: nat, id: string, errors: Counts)
    requires i < |tunnels| && next == i + 1
    ensures var tun := tunnels[i];
            && Others(tunnels[..next], id) == (if tun.id == id then Others(tunnels[..i], id) else Others(tunnels[..i], id) + [tun])
            && Blamed(tunnels[..next], id, errors)
               == (if tun.id == id then Blamed(tunnels[..i], id, errors).Plus(tun.protocol) else Blamed(tunnels[..i], id, errors))
  {
    assert tunnels[..next][..i] == tunnels[..i];
  }

  lemma PrefixNone(id: string, errors: Counts)
    ensures Others([], id) == [] && Blamed([], id, errors) == errors
  {
  }

  // Reports that follow one another

  /**
   * Error reports, each naming the tunnel that the one before it built; in between, tunnels of names
   * other than `names` are added, and a tunnel that closes after its report deletes its name again.
   * `ids` are the names of the tunnels built so far; while `open`, the last of them is not yet
   * reported.
   */
  ghost predicate IsChain(events: seq<Event>, ids: seq<string>, open: bool, names: set<string>) {
    if events == [] then ids == [] && !open
    else
      var before, last := events[..|events| - 1], events[|events| - 1];
      match last
      case Added(tunnel) => tunnel.id !in names && IsChain(before, ids, open, names)
      case Deleted(id) =>
        || (!open && ids != [] && id == ids[|ids| - 1] && IsChain(before, ids, true, names))
        || (id in names && (open ==> ids != [] && id != ids[|ids| - 1]) && IsChain(before, ids, open, names))
      case Built(id) =>
        open && ids != [] && id == ids[|ids| - 1] && id in names && IsChain(before, ids[..|ids| - 1], false, names)
  }

  ghost predicate NobodyNamed(tunnels: seq<Tunnel>, names: set<string>) {
    forall i :: 0 <= i < |tunnels| ==> tunnels[i].id !in names
  }

  lemma FromNext(start: State, events: seq<Event>, event: Event)
    ensures From(start, events + [event]) == Apply(From(start, events), event)
  {
    assert (events + [event])[..|events|] == events;
  }

  /** The counts after `n` deletions, and the protocol whose turn it then is. */
  function TurnCounts(n: nat): Counts {
    Counts((n + 2) / 3, n / 3, (n + 1) / 3)
  }

  function Turn(n: nat): Protocol {
    if n % 3 == 0 then Tls else if n % 3 == 1 then Quic else Kcp
  }

  lemma NextTurn(n: nat, next: nat)
    requires next == n + 1
    ensures TurnCounts(next) == TurnCounts(n).Plus(Turn(n)) && Choice(TurnCounts(n)) == Turn(n)
  {
  }

  ghost predicate NoneCalled(tunnels: seq<Tunnel>, id: string) {
    forall i :: 0 <= i < |tunnels| ==> tunnels[i].id != id
  }

  /** Deleting takes out the one tunnel of a name and blames its protocol. */
  lemma {:induction false} DeleteOnly(pre: seq<Tunnel>, tunnel: Tunnel, post: seq<Tunnel>, errors: Counts)
    requires NoneCalled(pre, tunnel.id) && NoneCalled(post, tunnel.id)
    ensures Others(pre + [tunnel] + post, tunnel.id) == pre + post
    ensures Blamed(pre + [tunnel] + post, tunnel.id, errors) == errors.Plus(tunnel.protocol)
  {
    var all := pre + [tunnel] + post;
    if post == [] {
      assert all[..|all| - 1] == pre && pre + [] == pre;
      NobodyToDelete(pre, tunnel.id, errors);
    } else {
      var n := |post| - 1;
      assert all[..|all| - 1] == pre + [tunnel] + post[..n];
      DeleteOnly(pre, tunnel, post[..n], errors);
      assert pre + post[..n] + [post[n]] == pre + post;
    }
  }

  lemma {:induction false} NobodyToDelete(tunnels: seq<Tunnel>, id: string, errors: Counts)
    requires NoneCalled(tunnels, id)
    ensures Others(tunnels, id) == tunnels && Blamed(tunnels, id, errors) == errors
  {
    if tunnels != [] {
      NobodyToDelete(tunnels[..|tunnels| - 1], id, errors);
    }
  }

  /** The list is the other tunnels, and among them, while it is not reported, the one built last. */
  ghost predicate HasBuilt(tunnels: seq<Tunnel>, open: bool, built: Tunnel, names: set<string>) {
    if open then
      exists pre, post :: tunnels == pre + [built] + post && NobodyNamed(pre, names) && NobodyNamed(post, names)
    else
      NobodyNamed(tunnels, names)
  }

  lemma AddedBehind(tunnels: seq<Tunnel>, open: bool, built: Tunnel, names: set<string>, tunnel: Tunnel)
    requires HasBuilt(tunnels, open, built, names) && tunnel.id !in names
    ensures HasBuilt(tunnels + [tunnel], open, built, names)
  {
    if open {
      var pre, post :| tunnels == pre + [built] + post && NobodyNamed(pre, names) && NobodyNamed(post, names);
      assert tunnels + [tunnel] == pre + [built] + (post + [tunnel]);
      assert NobodyNamed(post + [tunnel], names);
    }
  }

  lemma BuiltBehind(tunnels: seq<Tunnel>, built: Tunnel, names: set<string>)
    requires NobodyNamed(tunnels, names)
    ensures HasBuilt(tunnels + [built], true, built, names)
  {
    assert tunnels + [built] == tunnels + [built] + [] && NobodyNamed([], names);
  }

  lemma BuiltIsDeleted(tunnels: seq<Tunnel>, built: Tunnel, names: set<string>, errors: Counts)
    requires HasBuilt(tunnels, true, built, names) && built.id in names
    ensures HasBuilt(Others(tunnels, built.id), false, built, names)
    ensures Blamed(tunnels, built.id, errors) == errors.Plus(built.protocol)
  {
    var pre, post :| tunnels == pre + [built] + post && NobodyNamed(pre, names) && NobodyNamed(post, names);
    DeleteOnly(pre, built, post, errors);
  }

  /** A second deletion of a name changes nothing. */
  lemma DeletedAgain(state: State, open: bool, built: Tunnel, names: set<string>, id: string)
    requires HasBuilt(state.tunnels, open, built, names) && id in names && (open ==> id != built.id)
    ensures Apply(state, Deleted(id)) == state
  {
    hide Others, Blamed;
    NobodyToDelete(state.tunnels, id, state.errors);
  }

  /**
   * From zero counts, whatever is listed and added under other names, the protocols take turns:
   * TLS, QUIC, KCP, and so on.
   */
  lemma {:induction false} ChainTakesTurns(listed: seq<Tunnel>, events: seq<Event>, ids: seq<string>, open: bool,
                                           names: set<string>)
    requires NobodyNamed(listed, names) && IsChain(events, ids, open, names)
    ensures open ==> ids != [] && ids[|ids| - 1] in names
    ensures ids != [] ==> ids[|ids| - 1] in names
    ensures var n, state := |ids|, From(State(listed, Counts(0, 0, 0)), events);
            && state.errors == TurnCounts(if open then n - 1 else n)
            && if n > 0 then HasBuilt(state.tunnels, open, Tunnel(ids[n - 1], Turn(n - 1)), names)
               else NobodyNamed(state.tunnels, names)
  {
    hide From, Others, Blamed, Choice, TurnCounts, Turn, HasBuilt, NobodyNamed;
    var start := State(listed, Counts(0, 0, 0));
    if events == [] {
      NothingYet(start);
    } else {
      var before, last, n := events[..|events| - 1], events[|events| - 1], |ids|;
      var state := From(start, before);
      FromNext(start, before, last);
      assert before + [last] == events;
      match last
      case Added(tunnel) =>
        ChainTakesTurns(listed, before, ids, open, names);
        if n > 0 {
          AddedBehind(state.tunnels, open, Tunnel(ids[n - 1], Turn(n - 1)), names, tunnel);
        } else {
          NobodyStill(state.tunnels, tunnel, names);
        }
      case Deleted(id) =>
        if !open && n > 0 && id == ids[n - 1] && IsChain(before, ids, true, names) {
          ChainTakesTurns(listed, before, ids, true, names);
          NextTurn(n - 1, n);
          BuiltIsDeleted(state.tunnels, Tunnel(id, Turn(n - 1)), names, state.errors);
        } else {
          ChainTakesTurns(listed, before, ids, open, names);
          NobodyIsClosed(state.tunnels, n > 0, names);
          DeletedAgain(state, open, if n > 0 then Tunnel(ids[n - 1], Turn(n - 1)) else Tunnel("", Tls), names, id);
        }
      case Built(id) =>
        ChainTakesTurns(listed, before, ids[..n - 1], false, names);
        NextTurn(n - 1, n);
        ClosedIsNobody(state.tunnels, if n > 1 then Tunnel(ids[n - 2], Turn(n - 2)) else Tunnel("", Tls), names, n > 1);
        BuiltBehind(state.tunnels, Tunnel(id, Turn(n - 1)), names);
    }
  }

  lemma NobodyStill(tunnels: seq<Tunnel>, tunnel: Tunnel, names: set<string>)
    requires NobodyNamed(tunnels, names) && tunnel.id !in names
    ensures NobodyNamed(tunnels + [tunnel], names)
  {
  }

  lemma ClosedIsNobody(tunnels: seq<Tunnel>, built: Tunnel, names: set<string>, some: bool)
    requires if some then HasBuilt(tunnels, false, built, names) else NobodyNamed(tunnels, names)
    ensures NobodyNamed(tunnels, names)
  {
  }

  lemma NobodyIsClosed(tunnels: seq<Tunnel>, some: bool, names: set<string>)
    ensures !some && NobodyNamed(tunnels, names) ==> forall built :: HasBuilt(tunnels, false, built, names)
  {
  }

  lemma NothingYet(start: State)
    ensures From(start, []) == start && TurnCounts(0) == Counts(0, 0, 0)
  {
  }

  /** At every moment of every such run the counts are in order and within one of each other. */
  lemma {:induction false} ChainKeepsCountsClose(listed: seq<Tunnel>, events: seq<Event>, ids: seq<string>, open: bool,
                                                 names: set<string>, moment: nat)
    requires NobodyNamed(listed, names) && IsChain(events, ids, open, names) && moment <= |events|
    ensures var errors := From(State(listed, Counts(0, 0, 0)), events[..moment]).errors;
            errors.kcp <= errors.quic <= errors.tls <= errors.kcp + 1
    decreases |events|
  {
    hide From, NobodyNamed, HasBuilt;
    if moment == |events| {
      assert events[..moment] == events;
      ChainTakesTurns(listed, events, ids, open, names);
    } else {
      var n := |events| - 1;
      assert events[..n][..moment] == events[..moment];
      match events[n]
      case Added(_) => ChainKeepsCountsClose(listed, events[..n], ids, open, names, moment);
      case Deleted(id) =>
        var reported := !open && ids != [] && id == ids[|ids| - 1] && IsChain(events[..n], ids, true, names);
        ChainKeepsCountsClose(listed, events[..n], ids, open || reported, names, moment);
      case Built(_) => ChainKeepsCountsClose(listed, events[..n], ids[..|ids| - 1], false, names, moment);
    }
  }

  /** The counts differ by one at most. */
  predicate Even(errors: Counts) {
    && errors.tls <= errors.kcp + 1 && errors.tls <= errors.quic + 1
    && errors.kcp <= errors.tls + 1 && errors.kcp <= errors.quic + 1
    && errors.quic <= errors.tls + 1 && errors.quic <= errors.kcp + 1
  }

  lemma ChoiceKeepsEven(errors: Counts)
    requires Even(errors)
    ensures Even(errors.Plus(Choice(errors)))
  {
  }

  /**
   * From any counts that differ by one at most, such as those after a first report of any tunnel,
   * they do so at every moment of such a run, and the tunnel built last is the one they choose.
   */
  lemma {:induction false} ChainStaysEven(start: State, events: seq<Event>, ids: seq<string>, open: bool,
                                          names: set<string>, moment: nat)
    requires NobodyNamed(start.tunnels, names) && Even(start.errors) && IsChain(events, ids, open, names)
    requires moment <= |events|
    ensures Even(From(start, events[..moment]).errors)
    ensures Even(From(start, events).errors) && (open ==> ids != [])
    ensures ids != [] ==> ids[|ids| - 1] in names
    ensures var state := From(start, events);
            if open then HasBuilt(state.tunnels, true, Tunnel(ids[|ids| - 1], Choice(state.errors)), names)
            else NobodyNamed(state.tunnels, names)
    decreases |events|
  {
    hide From, Others, Blamed, Choice, HasBuilt, NobodyNamed, Even;
    NothingYet(start);
    if events != [] {
      var n := |events| - 1;
      var before, last := events[..n], events[n];
      var state := From(start, before);
      FromNext(start, before, last);
      assert before + [last] == events && events[..|events|] == events;
      assert moment <= n ==> before[..moment] == events[..moment];
      var m := if moment <= n then moment else n;
      match last
      case Added(tunnel) =>
        ChainStaysEven(start, before, ids, open, names, m);
        if open {
          AddedBehind(state.tunnels, true, Tunnel(ids[|ids| - 1], Choice(state.errors)), names, tunnel);
        } else {
          NobodyStill(state.tunnels, tunnel, names);
        }
      case Deleted(id) =>
        if !open && ids != [] && id == ids[|ids| - 1] && IsChain(before, ids, true, names) {
          ChainStaysEven(start, before, ids, true, names, m);
          BuiltIsDeleted(state.tunnels, Tunnel(id, Choice(state.errors)), names, state.errors);
          ClosedIsNobody(From(start, events).tunnels, Tunnel(id, Choice(state.errors)), names, true);
          ChoiceKeepsEven(state.errors);
        } else {
          ChainStaysEven(start, before, ids, open, names, m);
          NobodyIsClosed(state.tunnels, false, names);
          DeletedAgain(state, open, Tunnel(if open then ids[|ids| - 1] else "", Choice(state.errors)), names, id);
        }
      case Built(id) =>
        ChainStaysEven(start, before, ids[..|ids| - 1], false, names, m);
        BuiltBehind(state.tunnels, Tunnel(id, Choice(state.errors)), names);
    } else {
      assert events[..moment] == [];
    }
  }

  /** A first report from zero counts, of a name that one tunnel has: the counts then differ by one at most. */
  lemma FirstReportIsEven(pre: seq<Tunnel>, tunnel: Tunnel, post: seq<Tunnel>)
    requires NoneCalled(pre, tunnel.id) && NoneCalled(post, tunnel.id)
    ensures var after := From(State(pre + [tunnel] + post, Counts(0, 0, 0)), [Deleted(tunnel.id)]);
            after == State(pre + post, Counts(0, 0, 0).Plus(tunnel.protocol)) && Even(after.errors)
  {
    hide Others, Blamed;
    var start := State(pre + [tunnel] + post, Counts(0, 0, 0));
    NothingYet(start);
    FromNext(start, [], Deleted(tunnel.id));
    assert [] + [Deleted(tunnel.id)] == [Deleted(tunnel.id)];
    DeleteOnly(pre, tunnel, post, Counts(0, 0, 0));
  }

  class Registry {
    var tunnels: seq<Tunnel>
    var errTypeCount: map<Protocol, nat>
    ghost var log: seq<Event>

    /** Every protocol has its count, and list and counts are what the log comes to. */
    ghost predicate Valid()
      reads this
    {
      && Tls in errTypeCount && Kcp in errTypeCount && Quic in errTypeCount
      && State(tunnels, Errors()) == From(EMPTY, log)
    }

    ghost function Errors(): Counts
      reads this
      requires Tls in errTypeCount && Kcp in errTypeCount && Quic in errTypeCount
    {
      Counts(errTypeCount[Tls], errTypeCount[Kcp], errTypeCount[Quic])
    }

    constructor ()
      ensures Valid() && log == []
    {
      tunnels, errTypeCount, log := [], map[Tls := 0, Kcp := 0, Quic := 0], [];
    }

    method AddProxy(tunnel: Tunnel)
      requires Valid()
      modifies this
      ensures Valid() && log == old(log) + [Added(tunnel)]
      ensures tunnels == old(tunnels) + [tunnel] && errTypeCount == old(errTypeCount)
    {
      hide From;
      tunnels := tunnels + [tunnel];
      FromNext(EMPTY, log, Added(tunnel));
      log := log + [Added(tunnel)];
    }

    method DelProxy(name: string) returns (found: bool)
      requires Valid()
      modifies this
      ensures Valid() && log == old(log) + [Deleted(name)]
      ensures found <==> exists i :: 0 <= i < |old(tunnels)| && old(tunnels)[i].id == name
    {
      hide From, Others, Blamed;
      ghost var errors := Errors();
      PrefixNone(name, errors);
      var e := [];
      found := false;
      for i := 0 to |tunnels|
        invariant tunnels == old(tunnels) && log == old(log)
        invariant Tls in errTypeCount && Kcp in errTypeCount && Quic in errTypeCount
        invariant e == Others(tunnels[..i], name) && Errors() == Blamed(tunnels[..i], name, errors)
        invariant found <==> exists k :: 0 <= k < i && tunnels[k].id == name
      {
        var tun := tunnels[i];
        PrefixNext(tunnels, i, i + 1, name, errors);
        if tun.id == name {
          if tun.protocol in errTypeCount {
            errTypeCount := errTypeCount[tun.protocol := errTypeCount[tun.protocol] + 1];
          }
          found := true;
        } else {
          e := e + [tun];
        }
      }
      assert tunnels[..|tunnels|] == tunnels;
      tunnels := e;
      FromNext(EMPTY, log, Deleted(name));
      log := log + [Deleted(name)];
    }

    /** `id` is the identifier that the new tunnel's random configuration gets. */
    method NewProxyByErrCount(id: string) returns (tunnel: Tunnel)
      requires Valid()
      modifies this
      ensures Valid() && log == old(log) + [Built(id)]
      ensures tunnel == Tunnel(id, Choice(old(Errors()))) && tunnels == old(tunnels) + [tunnel]
      ensures tunnel.protocol == Quic <==> old(Errors()).quic < old(Errors()).tls
      ensures tunnel.protocol == Kcp <==> old(Errors()).kcp < old(Errors()).tls <= old(Errors()).quic
    {
      hide From;
      var tlsnum, kcpnum, quicnum := errTypeCount[Tls], errTypeCount[Kcp], errTypeCount[Quic];
      if quicnum < tlsnum {
        tunnel := Tunnel(id, Quic);
      } else {
        if kcpnum < tlsnum {
          tunnel := Tunnel(id, Kcp);
        } else {
          tunnel := Tunnel(id, Tls);
        }
      }
      tunnels := tunnels + [tunnel];
      FromNext(EMPTY, log, Built(id));
      log := log + [Built(id)];
    }

    /** A report of errors: the named tunnel goes, and one of the next protocol is built. */
    method ReportErrors(name: string, id: string) returns (tunnel: Tunnel)
      requires Valid()
      modifies this
      ensures Valid() && log == old(log) + [Deleted(name)] + [Built(id)]
      ensures tunnel.id == id && tunnel in tunnels
    {
      hide From;
      var found := DelProxy(name);
      tunnel := NewProxyByErrCount(id);
    }
  }
}
