/**
 * The resolver's cache of addresses by name and its index of names by address. Answers expire on a
 * clock, and an expired record is deleted by the lookup that finds it.
 */
module DnsCache {
  import opened Options

  /** Nanoseconds. */
  type Time = int

  const MINUTE: Time := 60_000_000_000
  const HOUR: Time := 60 * MINUTE

  datatype DNSRecord = DNSRecord(ips: seq<string>, timeout: Time)

  /** One resource record of a reply: an IPv4 address of class IN, or something else. */
  datatype Answer = Address(ip: string) | Other

  /** Which of the two indices a resolution enters: none, the index of names, or that and the local one. */
  datatype Entry = Unindexed | Indexed | IndexedAsLocal

  /**
   * What happened to the cache: a resolution was stored, a name was looked up, all records were
   * cleared, or the local rules were read from the lines of their file.
   */
  datatype Event =
    | Stored(domain: string, record: DNSRecord, entry: Entry)
    | LookedUp(domain: string, at: Time)
    | Cleared
    | RulesRead(lines: seq<string>)

  type Index = map<string, string>

  /** `domainsToAddresses`, `ip2host`, `local2host` and `fuzzyHost`. */
  datatype State = State(records: map<string, DNSRecord>, hosts: Index, locals: Index, patterns: seq<string>)

  /** A line of the rule file, trimmed, that is no comment, not blank, and has no blank inside. */
  predicate IsRule(line: string) {
    line != "" && line[0] != '#' && ' ' !in line
  }

  function PlainRules(lines: seq<string>): Index {
    map line | line in lines && IsRule(line) && '*' !in line :: "local"
  }

  function WildRules(lines: seq<string>): seq<string> {
    if lines == [] then []
    else
      var last := lines[|lines| - 1];
      WildRules(lines[..|lines| - 1]) + (if IsRule(last) && '*' in last then [last] else [])
  }

  function Pointing(hosts: Index, ips: seq<string>, domain: string): Index {
    if ips == [] then hosts else Pointing(hosts, ips[..|ips| - 1], domain)[ips[|ips| - 1] := domain]
  }

  function Apply(state: State, event: Event): State {
    match event
    case Stored(domain, record, entry) =>
      State(state.records[domain := record],
            if entry != Unindexed then Pointing(state.hosts, record.ips, domain) else state.hosts,
            if entry == IndexedAsLocal then Pointing(state.locals, record.ips, domain) else state.locals,
            state.patterns)
    case LookedUp(domain, at) =>
      if domain in state.records && at >= state.records[domain].timeout then
        state.(records := state.records - {domain})
      else
        state
    case Cleared => state.(records := map[])
    case RulesRead(lines) => state.(locals := PlainRules(lines), patterns := state.patterns + WildRules(lines))
  }

  function After(log: seq<Event>): State {
    if log == [] then State(map[], map[], map[], []) else Apply(After(log[..|log| - 1]), log[|log| - 1])
  }

  /** Every one of the addresses points to the name now, and all else is as before. */
  ghost predicate PointsTo(before: Index, after: Index, ips: seq<string>, domain: string) {
    && (forall ip :: ip in ips ==> ip in after && after[ip] == domain)
    && (forall ip :: ip !in ips ==> (ip in after <==> ip in before))
    && (forall ip :: ip !in ips && ip in before && ip in after ==> after[ip] == before[ip])
  }

  lemma PointingPointsTo(hosts: Index, ips: seq<string>, domain: string)
    ensures PointsTo(hosts, Pointing(hosts, ips, domain), ips, domain)
  {
    hide Pointing;
    forall ip
      ensures ip in ips ==> ip in Pointing(hosts, ips, domain) && Pointing(hosts, ips, domain)[ip] == domain
      ensures ip !in ips ==> (ip in Pointing(hosts, ips, domain) <==> ip in hosts)
      ensures ip !in ips && ip in hosts ==> Pointing(hosts, ips, domain)[ip] == hosts[ip]
    {
      PointingHas(hosts, ips, domain, ip);
    }
  }

  // The log alone

  /** The latest resolution of a name since the last clearing. */
  function Latest(log: seq<Event>, domain: string): Option<DNSRecord> {
    if log == [] then None
    else
      var last := log[|log| - 1];
      if last.Cleared? then None
      else if last.Stored? && last.domain == domain then Some(last.record)
      else Latest(log[..|log| - 1], domain)
  }

  /** The name of the latest indexed resolution that had an address. */
  function LatestHost(log: seq<Event>, ip: string): Option<string> {
    if log == [] then None
    else
      var last := log[|log| - 1];
      if last.Stored? && last.entry != Unindexed && ip in last.record.ips then Some(last.domain)
      else LatestHost(log[..|log| - 1], ip)
  }

  /** What the local index has for a name or an address: the latest local resolution, or rule of the latest rules. */
  function LatestLocal(log: seq<Event>, key: string): Option<string> {
    if log == [] then None
    else
      var before, last := log[..|log| - 1], log[|log| - 1];
      match last
      case Stored(domain, record, IndexedAsLocal) =>
        if key in record.ips then Some(domain) else LatestLocal(before, key)
      case RulesRead(lines) => if key in lines && IsRule(key) && '*' !in key then Some("local") else None
      case _ => LatestLocal(before, key)
  }

  /** Some line ever read is a rule with a wildcard that the name or the address matches. */
  ghost predicate EverMatched(log: seq<Event>, key: string, matches: (string, string) -> bool) {
    log != [] &&
    var last := log[|log| - 1];
    || (last.RulesRead? && exists line | line in last.lines :: IsRule(line) && '*' in line && matches(line, key))
    || EverMatched(log[..|log| - 1], key, matches)
  }

  /** No lookup of the log is later than `now`, nor than a lookup that follows it. */
  ghost predicate ClockRuns(log: seq<Event>, now: Time) {
    log == [] ||
    var last := log[|log| - 1];
    && (last.LookedUp? ==> last.at <= now)
    && ClockRuns(log[..|log| - 1], if last.LookedUp? then last.at else now)
  }

  lemma {:induction false} ClockRunsOn(log: seq<Event>, now: Time, later: Time)
    requires ClockRuns(log, now) && now <= later
    ensures ClockRuns(log, later)
  {
    if log != [] && !log[|log| - 1].LookedUp? {
      ClockRunsOn(log[..|log| - 1], now, later);
    }
  }

  /** A cached record is the latest one; a latest one that is not cached has expired. */
  lemma {:induction false} CacheFollowsLog(log: seq<Event>, now: Time, domain: string)
    requires ClockRuns(log, now)
    ensures var records := After(log).records;
            && (domain in records ==> Latest(log, domain) == Some(records[domain]))
            && (domain !in records && Latest(log, domain).Some? ==> Latest(log, domain).value.timeout <= now)
  {
    if log != [] {
      var before, last := log[..|log| - 1], log[|log| - 1];
      CacheFollowsLog(before, if last.LookedUp? then last.at else now, domain);
    }
  }

  /** A lookup would find a record that has not expired. */
  predicate Hits(records: map<string, DNSRecord>, domain: string, now: Time) {
    domain in records && now < records[domain].timeout
  }

  /**
   * With a clock that never runs back, a lookup hits exactly when the latest resolution since the
   * last clearing has not expired, and it finds that one: deleting expired records is unobservable.
   */
  lemma HitsExactlyWhenLatestIsFresh(log: seq<Event>, now: Time, domain: string)
    requires ClockRuns(log, now)
    ensures Hits(After(log).records, domain, now) <==>
            Latest(log, domain).Some? && now < Latest(log, domain).value.timeout
    ensures Hits(After(log).records, domain, now) ==> Latest(log, domain) == Some(After(log).records[domain])
  {
    CacheFollowsLog(log, now, domain);
  }

  /** A lookup changes no later one: it may delete a record, but none that could still be found. */
  lemma LookupChangesNoLaterOne(log: seq<Event>, asked: string, at: Time, domain: string, later: Time)
    requires ClockRuns(log, at) && at <= later
    ensures var more := log + [LookedUp(asked, at)];
            && ClockRuns(more, later)
            && (Hits(After(more).records, domain, later) <==> Hits(After(log).records, domain, later))
            && (Hits(After(log).records, domain, later) ==>
                  Hits(After(log).records, domain, at) && After(more).records[domain] == After(log).records[domain])
  {
    var more := log + [LookedUp(asked, at)];
    assert more[..|log|] == log;
    ClockRunsOn(log, at, later);
    HitsExactlyWhenLatestIsFresh(log, later, domain);
    HitsExactlyWhenLatestIsFresh(more, later, domain);
  }

  lemma {:induction false} PointingHas(hosts: Index, ips: seq<string>, domain: string, ip: string)
    ensures ip in ips ==> ip in Pointing(hosts, ips, domain) && Pointing(hosts, ips, domain)[ip] == domain
    ensures ip !in ips ==> (ip in Pointing(hosts, ips, domain) <==> ip in hosts)
    ensures ip !in ips && ip in hosts ==> Pointing(hosts, ips, domain)[ip] == hosts[ip]
  {
    if ips != [] {
      PointingHas(hosts, ips[..|ips| - 1], domain, ip);
      assert ip in ips <==> ip in ips[..|ips| - 1] || ip == ips[|ips| - 1];
    }
  }

  /** The index names the latest resolution that had the address, whatever was cleared or expired since. */
  lemma {:induction false} IndexFollowsLog(log: seq<Event>, ip: string)
    ensures LatestHost(log, ip) == if ip in After(log).hosts then Some(After(log).hosts[ip]) else None
  {
    if log != [] {
      var before, last := log[..|log| - 1], log[|log| - 1];
      IndexFollowsLog(before, ip);
      if last.Stored? {
        PointingHas(After(before).hosts, last.record.ips, last.domain, ip);
      }
    }
  }

  /** The local index follows the log likewise; reading the rules again forgets all that was local before. */
  lemma {:induction false} LocalIndexFollowsLog(log: seq<Event>, key: string)
    ensures LatestLocal(log, key) == if key in After(log).locals then Some(After(log).locals[key]) else None
  {
    if log != [] {
      var before, last := log[..|log| - 1], log[|log| - 1];
      LocalIndexFollowsLog(before, key);
      if last.Stored? {
        PointingHas(After(before).locals, last.record.ips, last.domain, key);
      }
    }
  }

  lemma {:induction false} WildRulesAre(lines: seq<string>, rule: string)
    ensures rule in WildRules(lines) <==> rule in lines && IsRule(rule) && '*' in rule
  {
    if lines != [] {
      var last, front := lines[|lines| - 1], lines[..|lines| - 1];
      WildRulesAre(front, rule);
      assert lines == front + [last];
    }
  }

  /** The patterns are those of every reading: none is ever forgotten, and each has a wildcard. */
  lemma {:induction false} PatternsFollowLog(log: seq<Event>, key: string, matches: (string, string) -> bool)
    ensures forall rule :: rule in After(log).patterns ==> '*' in rule
    ensures EverMatched(log, key, matches) <==> exists rule | rule in After(log).patterns :: matches(rule, key)
  {
    hide WildRules, IsRule, Pointing;
    if log != [] {
      var before, last := log[..|log| - 1], log[|log| - 1];
      PatternsFollowLog(before, key, matches);
      if last.RulesRead? {
        forall rule ensures rule in WildRules(last.lines) <==> rule in last.lines && IsRule(rule) && '*' in rule {
          WildRulesAre(last.lines, rule);
        }
        assert forall rule :: rule in After(log).patterns <==> rule in After(before).patterns || rule in WildRules(last.lines);
      }
    }
  }

  /** Once a pattern matched, it matches for good: reading other rules takes back plain names only. */
  lemma {:induction false} MatchedForGood(log: seq<Event>, more: seq<Event>, key: string, matches: (string, string) -> bool)
    requires EverMatched(log, key, matches)
    ensures EverMatched(log + more, key, matches)
    decreases |more|
  {
    if more == [] {
      assert log + more == log;
    } else {
      MatchedForGood(log, more[..|more| - 1], key, matches);
      assert (log + more)[..|log + more| - 1] == log + more[..|more| - 1];
    }
  }

  /**
   * A line of the file is local by name, or a pattern, or nothing: nothing when it is blank, when it
   * starts with a number sign, or when it has a blank inside; a pattern when it has an asterisk.
   */
  lemma LineIsRule(lines: seq<string>, line: string)
    ensures line in PlainRules(lines) <==>
              line in lines && line != "" && line[0] != '#' && ' ' !in line && '*' !in line
    ensures line in WildRules(lines) <==>
              line in lines && line != "" && line[0] != '#' && ' ' !in line && '*' in line
    ensures line in PlainRules(lines) ==> PlainRules(lines)[line] == "local"
  {
    WildRulesAre(lines, line);
  }

  lemma RulesNext(lines: seq<string>, i: nat, next: nat)
    requires i < |lines| && next == i + 1
    ensures PlainRules(lines[..next])
         == if IsRule(lines[i]) && '*' !in lines[i] then PlainRules(lines[..i])[lines[i] := "local"] else PlainRules(lines[..i])
    ensures WildRules(lines[..next])
         == WildRules(lines[..i]) + if IsRule(lines[i]) && '*' in lines[i] then [lines[i]] else []
  {
    assert lines[..next] == lines[..i] + [lines[i]];
  }

  // What a lookup answers

  function Others(ips: seq<string>, chosen: string): seq<string> {
    if ips == [] then []
    else Others(ips[..|ips| - 1], chosen) + (if ips[|ips| - 1] != chosen then [ips[|ips| - 1]] else [])
  }

  /** A chosen address first, then all that differ from it. */
  function AnswerOf(ips: seq<string>, random: nat): seq<string> {
    if ips == [] then [] else var chosen := ips[random % |ips|]; [chosen] + Others(ips, chosen)
  }

  lemma {:induction false} OthersCount(ips: seq<string>, chosen: string, ip: string)
    ensures multiset(Others(ips, chosen))[ip] == if ip == chosen then 0 else multiset(ips)[ip]
  {
    if ips != [] {
      OthersCount(ips[..|ips| - 1], chosen, ip);
      assert ips == ips[..|ips| - 1] + [ips[|ips| - 1]];
    }
  }

  /** Every address is answered and no other; the answer permutes them exactly when the chosen one stands once. */
  lemma AnswerHasAllAddresses(ips: seq<string>, random: nat)
    ensures forall ip :: ip in AnswerOf(ips, random) <==> ip in ips
    ensures ips != [] ==> AnswerOf(ips, random)[0] == ips[random % |ips|]
    ensures ips != [] ==>
              (multiset(AnswerOf(ips, random)) == multiset(ips) <==> multiset(ips)[ips[random % |ips|]] == 1)
  {
    if ips != [] {
      var chosen, answer := ips[random % |ips|], AnswerOf(ips, random);
      forall ip ensures multiset(answer)[ip] == if ip == chosen then 1 else multiset(ips)[ip] {
        OthersCount(ips, chosen, ip);
      }
      assert chosen in multiset(ips);
      forall ip ensures ip in answer <==> ip in ips {
        assert ip in answer <==> multiset(answer)[ip] > 0;
        assert ip in ips <==> multiset(ips)[ip] > 0;
      }
    }
  }

  /** The usable addresses of a reply. */
  function Usable(answers: seq<Answer>): seq<string> {
    if answers == [] then []
    else
      var last := answers[|answers| - 1];
      Usable(answers[..|answers| - 1])
      + (if last.Address? && last.ip != "" && last.ip != "0.0.0.0" then [last.ip] else [])
  }

  /** All usable addresses as often as they come, and no other; in the order of the answers. */
  lemma {:induction false} UsableAreAll(answers: seq<Answer>, ip: string)
    ensures multiset(Usable(answers))[ip] == if ip == "" || ip == "0.0.0.0" then 0 else multiset(answers)[Address(ip)]
  {
    if answers != [] {
      UsableAreAll(answers[..|answers| - 1], ip);
      assert answers == answers[..|answers| - 1] + [answers[|answers| - 1]];
    }
  }

  lemma {:induction false} UsableInOrder(first: seq<Answer>, more: seq<Answer>)
    ensures Usable(first + more) == Usable(first) + Usable(more)
    decreases |more|
  {
    hide Usable;
    UsableStep(more);
    UsableStep(first + more);
    if more == [] {
      assert first + more == first;
    } else {
      var n := |more| - 1;
      UsableInOrder(first, more[..n]);
      assert (first + more)[..|first + more| - 1] == first + more[..n] && (first + more)[|first + more| - 1] == more[n];
    }
  }

  lemma UsableStep(answers: seq<Answer>)
    ensures answers == [] ==> Usable(answers) == []
    ensures answers != [] ==>
              var last := answers[|answers| - 1];
              Usable(answers) == Usable(answers[..|answers| - 1])
                                 + if last.Address? && last.ip != "" && last.ip != "0.0.0.0" then [last.ip] else []
  {
  }

  class Resolver {
    var domainsToAddresses: map<string, DNSRecord>
    var ip2host: Index
    var local2host: Index
    var fuzzyHost: seq<string>
    ghost var log: seq<Event>

    ghost predicate Valid()
      reads this
    {
      State(domainsToAddresses, ip2host, local2host, fuzzyHost) == After(log)
    }

    constructor ()
      ensures Valid() && log == []
    {
      domainsToAddresses, ip2host, local2host, fuzzyHost, log := map[], map[], map[], [], [];
    }

    method Note(ghost event: Event)
      requires State(domainsToAddresses, ip2host, local2host, fuzzyHost) == Apply(After(log), event)
      modifies this`log
      ensures Valid() && log == old(log) + [event]
    {
      log := log + [event];
      assert log[..|log| - 1] == old(log);
    }

    /** Every address of a record points to the name, in the local index too if the record is local. */
    method AddToIndex(ips: seq<string>, domain: string, local: bool)
      modifies this`ip2host, this`local2host
      ensures ip2host == Pointing(old(ip2host), ips, domain) && PointsTo(old(ip2host), ip2host, ips, domain)
      ensures local2host == if local then Pointing(old(local2host), ips, domain) else old(local2host)
      ensures local ==> PointsTo(old(local2host), local2host, ips, domain)
    {
      hide PointsTo;
      PointingPointsTo(ip2host, ips, domain);
      PointingPointsTo(local2host, ips, domain);
      for i := 0 to |ips|
        invariant ip2host == Pointing(old(ip2host), ips[..i], domain)
        invariant local2host == if local then Pointing(old(local2host), ips[..i], domain) else old(local2host)
      {
        ip2host := ip2host[ips[i] := domain];
        if local {
          local2host := local2host[ips[i] := domain];
        }
        assert ips[..i + 1][..i] == ips[..i];
      }
      assert ips[..|ips|] == ips;
    }

    static method AddressesOf(answers: seq<Answer>) returns (ips: seq<string>)
      ensures ips == Usable(answers)
    {
      ips := [];
      for i := 0 to |answers|
        invariant ips == Usable(answers[..i])
      {
        if answers[i].Address? && answers[i].ip != "" && answers[i].ip != "0.0.0.0" {
          ips := ips + [answers[i].ip];
        }
        assert answers[..i + 1][..i] == answers[..i];
      }
      assert answers[..|answers|] == answers;
    }

    /** A local resolution is kept for an hour, even one without any usable address. */
    method ResolveLocal(domain: string, answers: seq<Answer>, now: Time) returns (done: bool)
      requires Valid()
      modifies this
      ensures Valid() && done == (answers != [])
      ensures log == if done then old(log) + [Stored(domain, DNSRecord(Usable(answers), now + 3_600_000_000_000), IndexedAsLocal)]
                     else old(log)
      ensures done ==>
                && domainsToAddresses == old(domainsToAddresses)[domain := DNSRecord(Usable(answers), now + 3_600_000_000_000)]
                && PointsTo(old(ip2host), ip2host, Usable(answers), domain)
                && PointsTo(old(local2host), local2host, Usable(answers), domain)
    {
      if |answers| == 0 {
        return false;
      }
      var ips := AddressesOf(answers);
      var record := DNSRecord(ips, now + HOUR);
      domainsToAddresses := domainsToAddresses[domain := record];
      AddToIndex(ips, domain, true);
      Note(Stored(domain, record, IndexedAsLocal));
      done := true;
    }

    /** The storing part: a remote resolution is kept for five minutes, if it has an address. */
    method ResolveRemoteOld(domain: string, answers: seq<Answer>, now: Time)
      requires Valid()
      modifies this
      ensures Valid()
      ensures log == if Usable(answers) == [] then old(log)
                     else old(log) + [Stored(domain, DNSRecord(Usable(answers), now + 300_000_000_000), Indexed)]
      ensures Usable(answers) != [] ==>
                && domainsToAddresses == old(domainsToAddresses)[domain := DNSRecord(Usable(answers), now + 300_000_000_000)]
                && PointsTo(old(ip2host), ip2host, Usable(answers), domain) && local2host == old(local2host)
    {
      if |answers| > 0 {
        var ips := AddressesOf(answers);
        if |ips| > 0 {
          var record := DNSRecord(ips, now + 5 * MINUTE);
          domainsToAddresses := domainsToAddresses[domain := record];
          AddToIndex(ips, domain, false);
          Note(Stored(domain, record, Indexed));
        }
      }
    }

    /** The two built-in names are not indexed. */
    method SetConfigIP(now: Time)
      requires Valid()
      modifies this
      ensures Valid()
      ensures var record := DNSRecord(["99.254.254.254"], now + 9999 * HOUR);
              && log == old(log) + [Stored("config.me.", record, Unindexed)] + [Stored("local.me.", record, Unindexed)]
              && domainsToAddresses == old(domainsToAddresses)["config.me." := record]["local.me." := record]
              && ip2host == old(ip2host) && local2host == old(local2host)
    {
      var record := DNSRecord(["99.254.254.254"], now + 9999 * HOUR);
      domainsToAddresses := domainsToAddresses["config.me." := record];
      Note(Stored("config.me.", record, Unindexed));
      domainsToAddresses := domainsToAddresses["local.me." := record];
      Note(Stored("local.me.", record, Unindexed));
    }

    method ResolveCache(domain: string, now: Time, random: nat) returns (hit: bool, answer: seq<string>)
      requires Valid() && ClockRuns(log, now)
      modifies this
      ensures Valid() && log == old(log) + [LookedUp(domain, now)] && ClockRuns(log, now)
      ensures hit <==> Latest(old(log), domain).Some? && now < Latest(old(log), domain).value.timeout
      ensures answer == if hit then AnswerOf(Latest(old(log), domain).value.ips, random) else []
    {
      HitsExactlyWhenLatestIsFresh(log, now, domain);
      hit, answer := false, [];
      if domain in domainsToAddresses {
        var record := domainsToAddresses[domain];
        if now < record.timeout {
          var ips := record.ips;
          if |ips| > 0 {
            var ip := ips[random % |ips|];
            answer := [ip];
            for i := 0 to |ips|
              invariant answer == [ip] + Others(ips[..i], ip)
            {
              if ips[i] != ip {
                answer := answer + [ips[i]];
              }
              assert ips[..i + 1][..i] == ips[..i];
            }
            assert ips[..|ips|] == ips;
          }
          hit := true;
        } else {
          domainsToAddresses := domainsToAddresses - {domain};
        }
      }
      Note(LookedUp(domain, now));
      assert log[..|log| - 1] == old(log);
    }

    /** The cached records go one by one, the index stays, and the rules are read again if there is a file of them. */
    method Clear(file: Option<seq<string>>)
      requires Valid()
      modifies this
      ensures Valid()
      ensures log == old(log) + [Cleared] + if file.Some? then [RulesRead(file.value)] else []
      ensures domainsToAddresses == map[] && ip2host == old(ip2host)
      ensures local2host == if file.Some? then PlainRules(file.value) else old(local2host)
    {
      var names := domainsToAddresses.Keys;
      while names != {}
        invariant domainsToAddresses.Keys <= names
        invariant ip2host == old(ip2host) && local2host == old(local2host) && fuzzyHost == old(fuzzyHost) && log == old(log)
        decreases names
      {
        var name :| name in names;
        domainsToAddresses := domainsToAddresses - {name};
        names := names - {name};
      }
      domainsToAddresses := map[];
      Note(Cleared);
      LoadLocalRule(file);
    }

    /** The lines of the rule file, trimmed: a plain name becomes local, a pattern is tried for good. */
    method LoadLocalRule(file: Option<seq<string>>)
      requires Valid()
      modifies this
      ensures Valid() && log == old(log) + if file.Some? then [RulesRead(file.value)] else []
      ensures domainsToAddresses == old(domainsToAddresses) && ip2host == old(ip2host)
      ensures file.Some? ==> local2host == PlainRules(file.value) && fuzzyHost == old(fuzzyHost) + WildRules(file.value)
      ensures file.None? ==> local2host == old(local2host) && fuzzyHost == old(fuzzyHost)
    {
      if file.None? {
        return;
      }
      var lines := file.value;
      local2host := map[];
      for i := 0 to |lines|
        invariant local2host == PlainRules(lines[..i]) && fuzzyHost == old(fuzzyHost) + WildRules(lines[..i])
        invariant domainsToAddresses == old(domainsToAddresses) && ip2host == old(ip2host) && log == old(log)
      {
        var line := lines[i];
        RulesNext(lines, i, i + 1);
        if line != "" && line[0] == '#' {
          continue;
        }
        if line == "" {
          continue;
        }
        if ' ' in line {
          continue;
        }
        if '*' in line {
          fuzzyHost := fuzzyHost + [line];
        } else {
          local2host := local2host[line := "local"];
        }
      }
      assert lines[..|lines|] == lines;
      Note(RulesRead(lines));
    }

    /** Local is what was resolved or named as local since the rules were read, and all that any pattern ever read matches. */
    method IsLocal(key: string, matches: (string, string) -> bool) returns (ok: bool)
      requires Valid()
      ensures ok <==> LatestLocal(log, key).Some? || EverMatched(log, key, matches)
      ensures ok <==> key in local2host || exists rule | rule in fuzzyHost :: matches(rule, key)
    {
      LocalIndexFollowsLog(log, key);
      PatternsFollowLog(log, key, matches);
      ok := key in local2host;
      if !ok {
        for i := 0 to |fuzzyHost|
          invariant ok <==> exists k :: 0 <= k < i && matches(fuzzyHost[k], key)
        {
          if ok {
            break;
          }
          var pattern := fuzzyHost[i];
          if '*' in pattern {
            ok := matches(pattern, key);
          } else if pattern == key {
            ok := true;
          }
        }
      }
    }

    /** The name of the latest resolution that had the address; empty when there was none. */
    method SearchIP(ip: string) returns (domain: string)
      requires Valid()
      ensures domain == match LatestHost(log, ip) case Some(name) => name case None => ""
      ensures domain == if ip in ip2host then ip2host[ip] else ""
    {
      IndexFollowsLog(log, ip);
      domain := "";
      if ip in ip2host {
        domain := ip2host[ip];
      }
    }
  }
}
