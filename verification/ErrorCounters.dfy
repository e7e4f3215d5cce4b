/** The client's saturating error counters, which decide when it fails over to another route. */
module ErrorCounters {

  /**
   * `ErrRecord(id, weight)`; `ErrVanish(id)`; a failed exchange with the route's server; a profile
   * fetched from it; a proxy reported to it, with the count that was read for it before; a profile
   * fetched in place of that; the count of one proxy given up, or of all.
   */
  datatype Report =
    | Record(id: string, weight: int)
    | Vanish(id: string)
    | RouteFailed
    | Fetched(id: string)
    | Reported(number: int)
    | Renewed(id: string)
    | Dropped(id: string)
    | AllDropped

  function Count(perProxy: map<string, int>, id: string): int {
    if id in perProxy then perProxy[id] else 0
  }

  /** A reported proxy's count is taken off the total as it is. */
  function Weight(report: Report): int {
    match report
    case Record(_, weight) => weight
    case Vanish(_) => -1
    case Reported(number) => -number
    case _ => 0
  }

  /** For the route, a record counts once, and only when it weighs more than one. */
  function RouteWeight(report: Report): int {
    match report
    case Record(_, weight) => if weight > 1 then 1 else 0
    case Vanish(_) => -1
    case RouteFailed => 1
    case Renewed(_) => -1
    case _ => 0
  }

  function Tally(perProxy: map<string, int>, report: Report): map<string, int> {
    match report
    case Record(id, weight) => perProxy[id := Count(perProxy, id) + weight]
    case Vanish(id) => if Count(perProxy, id) > 0 then perProxy[id := Count(perProxy, id) - 1] else perProxy
    case RouteFailed => perProxy
    case Fetched(id) => perProxy[id := 0]
    case Reported(_) => perProxy
    case Renewed(id) => perProxy[id := 0]
    case Dropped(id) => perProxy - {id}
    case AllDropped => map[]
  }

  /** What these take off stops at zero. */
  predicate Saturates(report: Report) {
    report.Vanish? || report.Renewed?
  }

  function Counted(counter: int, report: Report, weigh: Report -> int): int {
    var change := weigh(report);
    if !Saturates(report) || change >= 0 then counter + change
    else if counter > 0 then counter - 1
    else counter
  }

  // What a run of reports adds up to

  function Counter(reports: seq<Report>, weigh: Report -> int): int {
    if reports == [] then 0
    else Counted(Counter(reports[..|reports| - 1], weigh), reports[|reports| - 1], weigh)
  }

  function PerProxy(reports: seq<Report>): map<string, int> {
    if reports == [] then map[]
    else Tally(PerProxy(reports[..|reports| - 1]), reports[|reports| - 1])
  }

  /** The net weight of a run of reports, with nothing cut off. */
  function Net(reports: seq<Report>, weigh: Report -> int): int {
    if reports == [] then 0
    else Net(reports[..|reports| - 1], weigh) + weigh(reports[|reports| - 1])
  }

  /** What stops at zero takes off one, as both weights have it. */
  ghost predicate Unit(weigh: Report -> int) {
    forall report: Report :: Saturates(report) ==> weigh(report) >= -1
  }

  /** The value is the largest net weight of any suffix of the run, the empty one included. */
  ghost predicate WorstSuffix(reports: seq<Report>, weigh: Report -> int, value: int) {
    && (forall from :: 0 <= from <= |reports| ==> Net(reports[from..], weigh) <= value)
    && exists from :: 0 <= from <= |reports| && Net(reports[from..], weigh) == value
  }

  /** What does not stop at zero never takes off more than there is. */
  ghost predicate NeverOverdrawn(reports: seq<Report>, weigh: Report -> int) {
    forall k :: 0 <= k < |reports| && !Saturates(reports[k]) ==> Counter(reports[..k], weigh) + weigh(reports[k]) >= 0
  }

  lemma OverdrawnBefore(reports: seq<Report>, weigh: Report -> int, n: nat)
    requires n <= |reports| && NeverOverdrawn(reports, weigh)
    ensures NeverOverdrawn(reports[..n], weigh)
  {
    forall k | 0 <= k < n && !Saturates(reports[..n][k])
      ensures Counter(reports[..n][..k], weigh) + weigh(reports[..n][k]) >= 0
    {
      assert reports[..n][..k] == reports[..k];
    }
  }

  /** A counter that is never overdrawn is the net weight of the worst suffix. */
  lemma {:induction false} CounterIsWorstSuffix(reports: seq<Report>, weigh: Report -> int)
    requires Unit(weigh) && NeverOverdrawn(reports, weigh)
    ensures Counter(reports, weigh) >= 0 && WorstSuffix(reports, weigh, Counter(reports, weigh))
  {
    hide Net, Counter, NeverOverdrawn;
    NothingYet(weigh);
    if reports == [] {
      assert reports[0..] == [];
    } else {
      var n := |reports| - 1;
      var before := reports[..n];
      OverdrawnBefore(reports, weigh, n);
      CounterIsWorstSuffix(before, weigh);
      CounterNext(reports, weigh);
      LastNotOverdrawn(reports, weigh);
      forall from | 0 <= from <= n
        ensures Net(reports[from..], weigh) == Net(before[from..], weigh) + weigh(reports[n])
      {
        NetOfSuffix(reports, weigh, from);
      }
      assert reports[|reports|..] == [];
      var from :| 0 <= from <= n && Net(before[from..], weigh) == Counter(before, weigh);
      if Counter(before, weigh) + weigh(reports[n]) >= 0 {
        assert Net(reports[from..], weigh) == Counter(reports, weigh);
      } else {
        assert Net(reports[|reports|..], weigh) == Counter(reports, weigh);
      }
    }
  }

  lemma LastNotOverdrawn(reports: seq<Report>, weigh: Report -> int)
    requires reports != [] && NeverOverdrawn(reports, weigh)
    ensures var n := |reports| - 1;
            !Saturates(reports[n]) ==> Counter(reports[..n], weigh) + weigh(reports[n]) >= 0
  {
    hide Counter;
  }

  lemma NothingYet(weigh: Report -> int)
    ensures Counter([], weigh) == 0 && Net([], weigh) == 0
  {
  }

  lemma CounterNext(reports: seq<Report>, weigh: Report -> int)
    requires reports != []
    ensures Counter(reports, weigh)
         == Counted(Counter(reports[..|reports| - 1], weigh), reports[|reports| - 1], weigh)
  {
  }

  lemma NetOfSuffix(reports: seq<Report>, weigh: Report -> int, from: nat)
    requires from < |reports|
    ensures var n := |reports| - 1;
            Net(reports[from..], weigh) == Net(reports[..n][from..], weigh) + weigh(reports[n])
  {
    var n := |reports| - 1;
    assert reports[from..][..n - from] == reports[..n][from..];
  }

  /**
   * All along a run a counter is not negative, and is the net weight of the worst suffix, exactly
   * when it is never overdrawn.
   */
  lemma WorstSuffixExactlyWhen(reports: seq<Report>, weigh: Report -> int)
    requires Unit(weigh)
    ensures (forall n :: 0 <= n <= |reports| ==> Counter(reports[..n], weigh) >= 0) <==> NeverOverdrawn(reports, weigh)
    ensures (forall n :: 0 <= n <= |reports| ==> WorstSuffix(reports[..n], weigh, Counter(reports[..n], weigh)))
            <==> NeverOverdrawn(reports, weigh)
  {
    hide Net, Counter;
    if NeverOverdrawn(reports, weigh) {
      forall n | 0 <= n <= |reports|
        ensures Counter(reports[..n], weigh) >= 0 && WorstSuffix(reports[..n], weigh, Counter(reports[..n], weigh))
      {
        OverdrawnBefore(reports, weigh, n);
        CounterIsWorstSuffix(reports[..n], weigh);
      }
    } else {
      var k :| 0 <= k < |reports| && !Saturates(reports[k]) && Counter(reports[..k], weigh) + weigh(reports[k]) < 0;
      var upTo := reports[..k + 1];
      CounterNext(upTo, weigh);
      assert upTo[..k] == reports[..k];
      NothingYet(weigh);
      assert upTo[|upTo|..] == [];
      assert Counter(reports[..k + 1], weigh) < 0 && !WorstSuffix(reports[..k + 1], weigh, Counter(reports[..k + 1], weigh));
    }
  }

  /** Overdrawn or not, a counter is never more than that. */
  lemma {:induction false} SomeSuffixIsAsBad(reports: seq<Report>, weigh: Report -> int)
    requires Unit(weigh)
    ensures exists from :: 0 <= from <= |reports| && Net(reports[from..], weigh) >= Counter(reports, weigh)
  {
    hide Net, Counter;
    NothingYet(weigh);
    if reports == [] {
      assert reports[0..] == [];
    } else {
      var n := |reports| - 1;
      SomeSuffixIsAsBad(reports[..n], weigh);
      CounterNext(reports, weigh);
      var from :| 0 <= from <= n && Net(reports[..n][from..], weigh) >= Counter(reports[..n], weigh);
      NetOfSuffix(reports, weigh, from);
      assert reports[|reports|..] == [];
      assert Net(reports[from..], weigh) >= Counter(reports, weigh) || Net(reports[|reports|..], weigh) >= Counter(reports, weigh);
    }
  }

  /** The counter of the route is never overdrawn. */
  lemma {:induction false} RouteIsNeverOverdrawn(reports: seq<Report>)
    ensures NeverOverdrawn(reports, RouteWeight) && Counter(reports, RouteWeight) >= 0
  {
    if reports != [] {
      var n := |reports| - 1;
      RouteIsNeverOverdrawn(reports[..n]);
      CounterNext(reports, RouteWeight);
      forall k | 0 <= k < |reports| && !Saturates(reports[k])
        ensures Counter(reports[..k], RouteWeight) + RouteWeight(reports[k]) >= 0
      {
        if k < n {
          assert reports[..n][..k] == reports[..k] && reports[..n][k] == reports[k];
        }
      }
    }
  }

  /** No proxy was reported, and no record weighed less than nothing. */
  predicate NoneReported(reports: seq<Report>) {
    forall i :: 0 <= i < |reports| ==> !reports[i].Reported? && (reports[i].Record? ==> reports[i].weight >= 0)
  }

  /** Without reports the total is never overdrawn either. */
  lemma {:induction false} UnreportedIsNeverOverdrawn(reports: seq<Report>)
    requires NoneReported(reports)
    ensures NeverOverdrawn(reports, Weight) && Counter(reports, Weight) >= 0
  {
    if reports != [] {
      var n := |reports| - 1;
      UnreportedIsNeverOverdrawn(reports[..n]);
      CounterNext(reports, Weight);
      forall k | 0 <= k < |reports| && !Saturates(reports[k])
        ensures Counter(reports[..k], Weight) + Weight(reports[k]) >= 0
      {
        if k < n {
          assert reports[..n][..k] == reports[..k] && reports[..n][k] == reports[k];
        }
      }
    }
  }

  /**
   * Without reports the law is plain: both counters are never negative and are the net weights of
   * the worst suffixes, and the client changes route exactly after a bad stretch.
   */
  lemma UnreportedLaw(reports: seq<Report>)
    requires NoneReported(reports)
    ensures Counter(reports, Weight) >= 0 && WorstSuffix(reports, Weight, Counter(reports, Weight))
    ensures Counter(reports, RouteWeight) >= 0 && WorstSuffix(reports, RouteWeight, Counter(reports, RouteWeight))
    ensures FailsOver(Counter(reports, Weight), Counter(reports, RouteWeight)) <==> BadStretch(reports)
  {
    hide Net, Counter, NeverOverdrawn, WorstSuffix, BadStretch;
    UnreportedIsNeverOverdrawn(reports);
    RouteIsNeverOverdrawn(reports);
    CounterIsWorstSuffix(reports, Weight);
    CounterIsWorstSuffix(reports, RouteWeight);
    FailsOverExactlyAfterBadStretch(reports);
  }

  /** The tests at the head of the listening loop. */
  predicate FailsOver(errors: int, routeErrors: int) {
    routeErrors > 10 || errors > 70
  }

  ghost predicate BadStretch(reports: seq<Report>) {
    exists from :: 0 <= from <= |reports| && (Net(reports[from..], RouteWeight) > 10 || Net(reports[from..], Weight) > 70)
  }

  /**
   * The client changes route only after some recent stretch of reports was bad enough, and always
   * when the total was never overdrawn, as in every run without reports.
   */
  lemma FailsOverExactlyAfterBadStretch(reports: seq<Report>)
    ensures FailsOver(Counter(reports, Weight), Counter(reports, RouteWeight)) ==> BadStretch(reports)
    ensures (NeverOverdrawn(reports, Weight) || NoneReported(reports)) && BadStretch(reports) ==>
              FailsOver(Counter(reports, Weight), Counter(reports, RouteWeight))
    ensures Counter(reports, RouteWeight) > 10 <==>
              exists from :: 0 <= from <= |reports| && Net(reports[from..], RouteWeight) > 10
  {
    hide Net, Counter, NeverOverdrawn, NoneReported;
    if NoneReported(reports) {
      UnreportedIsNeverOverdrawn(reports);
    }
    SomeSuffixIsAsBad(reports, Weight);
    SomeSuffixIsAsBad(reports, RouteWeight);
    RouteIsNeverOverdrawn(reports);
    CounterIsWorstSuffix(reports, RouteWeight);
    if NeverOverdrawn(reports, Weight) {
      CounterIsWorstSuffix(reports, Weight);
    }
  }

  /** Reporting proxies takes their own counts off a total that successes of others lowered before. */
  lemma ReportingOverdraws()
    ensures var reports := Times(6, Record("a", 1)) + Times(6, Vanish("b")) + Times(13, Record("c", 1))
                           + [Reported(6)] + [Reported(13)];
            && PerProxy(reports) == map["a" := 6, "c" := 13]
            && Counter(reports, Weight) == -6 && !NeverOverdrawn(reports, Weight)
  {
    hide Counter, PerProxy, Net, NeverOverdrawn, Times;
    var errors := Times(6, Record("a", 1));
    var successes := errors + Times(6, Vanish("b"));
    var before := successes + Times(13, Record("c", 1));
    NothingCounted();
    Recorded([], "a", 6);
    assert [] + errors == errors;
    Vanished(errors, "b", 6);
    Recorded(successes, "c", 13);
    OneMore(before, Reported(6));
    OneMore(before + [Reported(6)], Reported(13));
    var reports := before + [Reported(6)] + [Reported(13)];
    assert reports[..|reports|] == reports;
    WorstSuffixExactlyWhen(reports, Weight);
  }

  function Times(n: nat, report: Report): seq<Report> {
    if n == 0 then [] else Times(n - 1, report) + [report]
  }

  lemma NothingCounted()
    ensures PerProxy([]) == map[] && Counter([], Weight) == 0
  {
  }

  lemma {:induction false} Recorded(reports: seq<Report>, id: string, n: nat)
    ensures var after := reports + Times(n, Record(id, 1));
            && Counter(after, Weight) == Counter(reports, Weight) + n
            && PerProxy(after) == if n == 0 then PerProxy(reports) else PerProxy(reports)[id := Count(PerProxy(reports), id) + n]
  {
    hide Counter, PerProxy;
    if n == 0 {
      assert reports + Times(0, Record(id, 1)) == reports;
    } else {
      Recorded(reports, id, n - 1);
      var before := reports + Times(n - 1, Record(id, 1));
      OneMore(before, Record(id, 1));
      assert reports + Times(n, Record(id, 1)) == before + [Record(id, 1)];
    }
  }

  /** Successes of a proxy without errors lower the total only. */
  lemma {:induction false} Vanished(reports: seq<Report>, id: string, n: nat)
    requires Count(PerProxy(reports), id) == 0 && n <= Counter(reports, Weight)
    ensures var after := reports + Times(n, Vanish(id));
            Counter(after, Weight) == Counter(reports, Weight) - n && PerProxy(after) == PerProxy(reports)
  {
    hide Counter, PerProxy;
    if n == 0 {
      assert reports + Times(0, Vanish(id)) == reports;
    } else {
      Vanished(reports, id, n - 1);
      var before := reports + Times(n - 1, Vanish(id));
      OneMore(before, Vanish(id));
      assert reports + Times(n, Vanish(id)) == before + [Vanish(id)];
    }
  }

  // The counter against the per-proxy counts

  ghost function Sum(perProxy: map<string, int>, ids: set<string>): int
    requires ids <= perProxy.Keys
  {
    if ids == {} then 0
    else
      var id :| id in ids;
      perProxy[id] + Sum(perProxy, ids - {id})
  }

  lemma {:induction false} SumWithout(perProxy: map<string, int>, ids: set<string>, id: string)
    requires ids <= perProxy.Keys && id in ids
    ensures Sum(perProxy, ids) == perProxy[id] + Sum(perProxy, ids - {id})
  {
    var first :| first in ids && Sum(perProxy, ids) == perProxy[first] + Sum(perProxy, ids - {first});
    if first != id {
      SumWithout(perProxy, ids - {first}, id);
      SumWithout(perProxy, ids - {id}, first);
      assert ids - {first} - {id} == ids - {id} - {first};
    }
  }

  lemma {:induction false} SumOfSame(perProxy: map<string, int>, other: map<string, int>, ids: set<string>)
    requires ids <= perProxy.Keys && ids <= other.Keys
    requires forall id :: id in ids ==> perProxy[id] == other[id]
    ensures Sum(perProxy, ids) == Sum(other, ids)
  {
    if ids != {} {
      var id :| id in ids;
      SumWithout(perProxy, ids, id);
      SumWithout(other, ids, id);
      SumOfSame(perProxy, other, ids - {id});
    }
  }

  lemma SumSet(perProxy: map<string, int>, id: string, value: int)
    ensures Sum(perProxy[id := value], perProxy.Keys + {id})
         == Sum(perProxy, perProxy.Keys) - Count(perProxy, id) + value
  {
    var after := perProxy[id := value];
    var rest := perProxy.Keys - {id};
    SumWithout(after, perProxy.Keys + {id}, id);
    assert perProxy.Keys + {id} - {id} == rest;
    SumOfSame(perProxy, after, rest);
    if id in perProxy {
      SumWithout(perProxy, perProxy.Keys, id);
    } else {
      assert rest == perProxy.Keys;
    }
  }

  lemma {:induction false} EntryWithinSum(perProxy: map<string, int>, ids: set<string>)
    requires ids <= perProxy.Keys
    requires forall id :: id in perProxy ==> perProxy[id] >= 0
    ensures Sum(perProxy, ids) >= 0
    ensures forall id :: id in ids ==> perProxy[id] <= Sum(perProxy, ids)
  {
    if ids != {} {
      var id :| id in ids;
      SumWithout(perProxy, ids, id);
      EntryWithinSum(perProxy, ids - {id});
    }
  }

  lemma SumDrop(perProxy: map<string, int>, id: string)
    ensures Sum(perProxy - {id}, (perProxy - {id}).Keys) == Sum(perProxy, perProxy.Keys) - Count(perProxy, id)
  {
    var rest := perProxy.Keys - {id};
    assert (perProxy - {id}).Keys == rest;
    SumOfSame(perProxy, perProxy - {id}, rest);
    if id in perProxy {
      SumWithout(perProxy, perProxy.Keys, id);
    } else {
      assert rest == perProxy.Keys;
    }
  }

  /** No record weighs less than nothing, and no count that is reported is, as in all calls. */
  predicate NoneNegative(reports: seq<Report>) {
    forall i :: 0 <= i < |reports| ==>
      (reports[i].Record? ==> reports[i].weight >= 0) && (reports[i].Reported? ==> reports[i].number >= 0)
  }

  /** The counts given up: dropped, or set back when a profile came under an identifier that had some. */
  ghost function Wiped(reports: seq<Report>): int {
    if reports == [] then 0
    else
      var before, last := reports[..|reports| - 1], reports[|reports| - 1];
      Wiped(before) +
      if last.Fetched? || last.Renewed? || last.Dropped? then Count(PerProxy(before), last.id)
      else if last.AllDropped? then Sum(PerProxy(before), PerProxy(before).Keys)
      else 0
  }

  predicate OnlyRecorded(reports: seq<Report>) {
    forall i :: 0 <= i < |reports| ==> reports[i].Record? || reports[i].Vanish?
  }

  lemma {:induction false} NothingWiped(reports: seq<Report>)
    requires OnlyRecorded(reports)
    ensures Wiped(reports) == 0
  {
    hide PerProxy, Sum;
    if reports != [] {
      NothingWiped(reports[..|reports| - 1]);
    }
  }

  /** The total never passes the sum of the counts per proxy and of those given up. */
  lemma TotalWithinPerProxy(reports: seq<Report>)
    requires NoneNegative(reports)
    ensures forall id :: id in PerProxy(reports) ==> PerProxy(reports)[id] >= 0
    ensures Counter(reports, Weight) <= Sum(PerProxy(reports), PerProxy(reports).Keys) + Wiped(reports)
    ensures Wiped(reports) >= 0
    ensures OnlyRecorded(reports) ==> Counter(reports, Weight) <= Sum(PerProxy(reports), PerProxy(reports).Keys)
    ensures NeverOverdrawn(reports, Weight) || NoneReported(reports) ==> Counter(reports, Weight) >= 0
  {
    hide Sum, Counter, PerProxy, Wiped, NeverOverdrawn, NoneReported, OnlyRecorded, NoneNegative;
    TotalWithinKept(reports);
    if NoneReported(reports) {
      UnreportedIsNeverOverdrawn(reports);
    }
    if NeverOverdrawn(reports, Weight) {
      CounterIsWorstSuffix(reports, Weight);
    }
    if OnlyRecorded(reports) {
      NothingWiped(reports);
    }
  }

  lemma {:induction false} TotalWithinKept(reports: seq<Report>)
    requires NoneNegative(reports)
    ensures forall id :: id in PerProxy(reports) ==> PerProxy(reports)[id] >= 0
    ensures Counter(reports, Weight) <= Sum(PerProxy(reports), PerProxy(reports).Keys) + Wiped(reports)
    ensures Wiped(reports) >= 0
  {
    hide Sum;
    if reports == [] {
      NoSum(map[]);
    } else {
      var before, last := PerProxy(reports[..|reports| - 1]), reports[|reports| - 1];
      TotalWithinKept(reports[..|reports| - 1]);
      EntryWithinSum(before, before.Keys);
      var after := PerProxy(reports);
      if last.Dropped? {
        SumDrop(before, last.id);
      } else if last.AllDropped? {
        NoSum(after);
      } else if last.Record? || last.Fetched? || last.Renewed? || after != before {
        SumSet(before, last.id, after[last.id]);
        assert after.Keys == before.Keys + {last.id};
      }
    }
  }

  lemma NoSum(perProxy: map<string, int>)
    requires perProxy == map[]
    ensures Sum(perProxy, perProxy.Keys) == 0
  {
  }

  lemma OneMore(reports: seq<Report>, report: Report)
    ensures PerProxy(reports + [report]) == Tally(PerProxy(reports), report)
    ensures Counter(reports + [report], Weight) == Counted(Counter(reports, Weight), report, Weight)
    ensures Counter(reports + [report], RouteWeight) == Counted(Counter(reports, RouteWeight), report, RouteWeight)
  {
    assert (reports + [report])[..|reports|] == reports;
  }

  class ErrorLedger {
    var perProxy: map<string, int>
    var errors: int
    var routeErrors: int
    var connectionErrors: int
    ghost var history: seq<Report>

    /** The counters say what the reports so far add up to. */
    ghost predicate Valid()
      reads this
    {
      && perProxy == PerProxy(history)
      && errors == Counter(history, Weight)
      && routeErrors == Counter(history, RouteWeight)
    }

    constructor ()
      ensures Valid() && history == [] && connectionErrors == 0
    {
      perProxy, errors, routeErrors, connectionErrors, history := map[], 0, 0, 0, [];
    }

    method ErrRecord(id: string, weight: int)
      requires Valid()
      modifies this
      ensures Valid() && history == old(history) + [Record(id, weight)]
      ensures perProxy == old(perProxy)[id := (if id in old(perProxy) then old(perProxy[id]) else 0) + weight]
      ensures errors == old(errors) + weight && routeErrors == old(routeErrors) + if weight > 1 then 1 else 0
      ensures connectionErrors == old(connectionErrors) + 1
    {
      hide PerProxy, Counter;
      perProxy := perProxy[id := Count(perProxy, id) + weight];
      errors := errors + weight;
      if weight > 1 {
        routeErrors := routeErrors + 1;
      }
      connectionErrors := connectionErrors + 1;
      history := history + [Record(id, weight)];
      OneMore(old(history), Record(id, weight));
    }

    method ErrVanish(id: string)
      requires Valid()
      modifies this
      ensures Valid() && history == old(history) + [Vanish(id)]
      ensures perProxy == if id in old(perProxy) && old(perProxy[id]) > 0 then old(perProxy)[id := old(perProxy[id]) - 1]
                          else old(perProxy)
      ensures errors == (if old(errors) > 0 then old(errors) - 1 else old(errors))
      ensures routeErrors == (if old(routeErrors) > 0 then old(routeErrors) - 1 else old(routeErrors))
      ensures connectionErrors == old(connectionErrors)
    {
      hide PerProxy, Counter;
      if Count(perProxy, id) > 0 {
        perProxy := perProxy[id := perProxy[id] - 1];
      }
      if errors > 0 {
        errors := errors - 1;
      }
      if routeErrors > 0 {
        routeErrors := routeErrors - 1;
      }
      history := history + [Vanish(id)];
      OneMore(old(history), Vanish(id));
    }

    /** What every failed exchange with the route's server does to the counters. */
    method RouteError()
      requires Valid()
      modifies this
      ensures Valid() && history == old(history) + [RouteFailed]
      ensures perProxy == old(perProxy) && errors == old(errors) && routeErrors == old(routeErrors) + 1
      ensures connectionErrors == old(connectionErrors)
    {
      hide PerProxy, Counter;
      routeErrors := routeErrors + 1;
      history := history + [RouteFailed];
      OneMore(old(history), RouteFailed);
    }

    /** What a fetched profile does to them; one in place of a reported one makes up for a route error. */
    method NewProfile(id: string, renewed: bool)
      requires Valid()
      modifies this
      ensures Valid() && history == old(history) + [if renewed then Renewed(id) else Fetched(id)]
      ensures perProxy == old(perProxy)[id := 0] && errors == old(errors)
      ensures routeErrors == if renewed && old(routeErrors) > 0 then old(routeErrors) - 1 else old(routeErrors)
      ensures connectionErrors == old(connectionErrors)
    {
      hide PerProxy, Counter;
      perProxy := perProxy[id := 0];
      if renewed && routeErrors > 0 {
        routeErrors := routeErrors - 1;
      }
      ghost var report := if renewed then Renewed(id) else Fetched(id);
      history := history + [report];
      OneMore(old(history), report);
    }

    /** What reporting a proxy does first, with the count that was read for it outside the lock. */
    method ReportProxy(number: int)
      requires Valid()
      modifies this
      ensures Valid() && history == old(history) + [Reported(number)]
      ensures perProxy == old(perProxy) && errors == old(errors) - number && routeErrors == old(routeErrors)
      ensures connectionErrors == old(connectionErrors)
    {
      hide PerProxy, Counter;
      errors := errors - number;
      history := history + [Reported(number)];
      OneMore(old(history), Reported(number));
    }

    /** What switching a profile automatically does: the count of its proxy goes. */
    method DropProxy(id: string)
      requires Valid()
      modifies this
      ensures Valid() && history == old(history) + [Dropped(id)]
      ensures perProxy == old(perProxy) - {id} && errors == old(errors) && routeErrors == old(routeErrors)
      ensures connectionErrors == old(connectionErrors)
    {
      hide PerProxy, Counter;
      perProxy := perProxy - {id};
      history := history + [Dropped(id)];
      OneMore(old(history), Dropped(id));
    }

    /** What changing the protocol does. */
    method DropAll()
      requires Valid()
      modifies this
      ensures Valid() && history == old(history) + [AllDropped]
      ensures perProxy == map[] && errors == old(errors) && routeErrors == old(routeErrors)
      ensures connectionErrors == old(connectionErrors)
    {
      hide PerProxy, Counter;
      perProxy := map[];
      history := history + [AllDropped];
      OneMore(old(history), AllDropped);
    }

    /** What changing the route does: the history begins anew. */
    method ChangeRoute()
      modifies this
      ensures Valid() && history == [] && connectionErrors == old(connectionErrors)
      ensures perProxy == map[] && errors == 0 && routeErrors == 0
    {
      perProxy, errors, routeErrors, history := map[], 0, 0, [];
    }

    /** The two fail-over tests, in their order. */
    method MustChangeRoute() returns (change: bool)
      requires Valid()
      ensures change <==> routeErrors > 10 || errors > 70
      ensures change ==> BadStretch(history)
      ensures NeverOverdrawn(history, Weight) || NoneReported(history) ==> (change <==> BadStretch(history))
    {
      hide PerProxy, Counter, BadStretch, NeverOverdrawn, NoneReported, WorstSuffix;
      if NoneReported(history) {
        UnreportedLaw(history);
      }
      FailsOverExactlyAfterBadStretch(history);
      if routeErrors > 10 {
        change := true;
      } else if errors > 70 {
        change := true;
      } else {
        change := false;
      }
    }
  }
}
