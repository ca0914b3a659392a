/** The route health checker: what a round of probes does to the failure counters and to the table.
    A round is atomic with respect to the admin API. */
module Health {
  import opened Options
  import opened Text
  import opened Arith
  import opened Streak
  import opened KeyOrder
  import opened Route
  import opened RouteTable
  import opened Router
  import opened Endpoint

  /** What a round learns of a target; a key without an endpoint is skipped. */
  datatype Outcome = Skipped | Up | Down
  type Results = string -> Outcome
  type Probe = (string, int) -> bool

  function ProbeResults(probe: Probe): Results {
    key =>
      match ProbeTarget(key)
      case None => Skipped
      case Some((host, port)) => if probe(host, port) then Up else Down
  }

  /** A target whose host has a colon, as every IP literal's has, is never probed. */
  lemma ColonHostsAreSkipped(probe: Probe, host: string, port: Port)
    ensures ProbeResults(probe)(HostPort(host, port))
            == if ':' in host then Skipped else if probe(host, port) then Up else Down
  {
    ProbedIffNoColon(host, port);
  }

  // ---------- one round, as functions ----------

  function CountOf(failures: map<string, nat>, key: string): nat {
    if key in failures then failures[key] else 0
  }

  /** The key of each email's route. */
  function KeyMap(routes: map<string, ProfileRoute>): map<string, string> {
    map e | e in routes :: TargetKey(routes[e].targetUrl)
  }

  /** The target's probe fails for the threshold-th time in a row. */
  predicate Dies(threshold: nat, failures: map<string, nat>, keys: set<string>, results: Results, key: string) {
    key in keys && results(key).Down? && CountOf(failures, key) + 1 >= threshold
  }

  /** The counters after the probes of a round, those of dead targets still included. */
  function Counted(failures: map<string, nat>, keys: set<string>, results: Results): map<string, nat> {
    map k | k in failures.Keys + keys
            && ((k in keys && results(k).Down?) || (k in failures && !(k in keys && results(k).Up?)))
          :: if k in keys && results(k).Down? then CountOf(failures, k) + 1 else failures[k]
  }

  function NextFailures(threshold: nat, failures: map<string, nat>, keys: set<string>, results: Results)
    : map<string, nat>
  {
    map k | k in Counted(failures, keys, results) && !Dies(threshold, failures, keys, results, k)
          :: Counted(failures, keys, results)[k]
  }

  /** The routes whose key is not among the dead ones. */
  function Surviving(routes: map<string, ProfileRoute>, keyed: map<string, string>, dead: set<string>)
    : map<string, ProfileRoute>
  {
    map e | e in routes && e in keyed && keyed[e] !in dead :: routes[e]
  }

  function DeadKeys(threshold: nat, failures: map<string, nat>, keys: set<string>, results: Results): set<string> {
    set k | k in keys && Dies(threshold, failures, keys, results, k)
  }

  /** The table and the counters. */
  datatype State = State(routes: map<string, ProfileRoute>, failures: map<string, nat>)

  /** One round: every key of the table is probed, the routes of the dead ones are removed. */
  function AfterRound(threshold: nat, s: State, probe: Probe): State {
    var keyed, results := KeyMap(s.routes), ProbeResults(probe);
    State(Surviving(s.routes, keyed, DeadKeys(threshold, s.failures, keyed.Values, results)),
          NextFailures(threshold, s.failures, keyed.Values, results))
  }

  function Limit(threshold: nat): nat {
    if threshold == 0 then 1 else threshold
  }

  ghost predicate Bounded(threshold: nat, failures: map<string, nat>) {
    forall k :: k in failures ==> failures[k] < Limit(threshold)
  }

  /** The counters stay below the threshold, so the next count fits the `u32` it is kept in. */
  lemma NextFailuresBounded(threshold: nat, failures: map<string, nat>, keys: set<string>, results: Results)
    requires Bounded(threshold, failures)
    ensures Bounded(threshold, NextFailures(threshold, failures, keys, results))
  {
  }

  /** The emails filed under each key: every email is in its key's group, once, and in no other. */
  ghost predicate Partitions(groups: map<string, seq<string>>, keyed: map<string, string>) {
    && groups.Keys == keyed.Values
    && forall k :: k in groups ==> Enumerates(groups[k], EmailsOf(keyed, k))
  }

  function EmailsOf(keyed: map<string, string>, key: string): set<string> {
    set e | e in keyed && keyed[e] == key
  }

  function ToSet(emails: seq<string>): set<string> {
    set e | e in emails
  }

  lemma MinusOne(m: map<string, ProfileRoute>, s: set<string>, e: string)
    ensures (m - s) - {e} == m - (s + {e})
  {
  }

  lemma ToSetSnoc(emails: seq<string>, i: nat)
    requires i < |emails|
    ensures ToSet(emails[..i + 1]) == ToSet(emails[..i]) + {emails[i]}
  {
    assert emails[..i + 1] == emails[..i] + [emails[i]];
  }

  function Group(groups: map<string, seq<string>>, key: string): seq<string> {
    if key in groups then groups[key] else []
  }

  lemma GroupEmails(groups: map<string, seq<string>>, keyed: map<string, string>, key: string)
    requires Partitions(groups, keyed)
    ensures ToSet(Group(groups, key)) == EmailsOf(keyed, key)
  {
  }

  lemma GroupGrows(groups: map<string, seq<string>>, keyed: map<string, string>, email: string, key: string)
    requires Partitions(groups, keyed) && email !in keyed
    ensures Partitions(groups[key := Group(groups, key) + [email]], keyed[email := key])
  {
    var groups', keyed' := groups[key := Group(groups, key) + [email]], keyed[email := key];
    assert keyed'.Values == keyed.Values + {key} by {
      assert keyed'[email] == key;
      forall k | k in keyed.Values ensures k in keyed'.Values {
        var e :| e in keyed && keyed[e] == k;
        assert keyed'[e] == k;
      }
    }
    assert key !in groups ==> EmailsOf(keyed, key) == {};
    forall k | k in groups' ensures Enumerates(groups'[k], EmailsOf(keyed', k)) {
      assert EmailsOf(keyed', k) == EmailsOf(keyed, k) + (if k == key then {email} else {});
    }
  }

  // ---------- the checker object ----------

  class HealthChecker {
    const failThreshold: nat
    var failures: map<string, nat>

    constructor (failThreshold: nat)
      requires failThreshold < 0x1_0000_0000
      ensures Valid() && this.failThreshold == failThreshold && failures == map[]
    {
      this.failThreshold := failThreshold;
      failures := map[];
    }

    ghost predicate Valid()
      reads this
    {
      failThreshold < 0x1_0000_0000 && Bounded(failThreshold, failures)
    }

    /** Groups the routes, visited in no particular order, by their keys. */
    static method GroupByTarget(routes: map<string, ProfileRoute>) returns (groups: map<string, seq<string>>)
      requires forall e :: e in routes ==> routes[e].email == e
      ensures Partitions(groups, KeyMap(routes))
    {
      hide TargetKey;
      groups := map[];
      var rest := routes.Keys;
      ghost var keyed: map<string, string> := map[];
      while rest != {}
        invariant rest <= routes.Keys
        invariant keyed.Keys == routes.Keys - rest
        invariant forall e :: e in keyed ==> keyed[e] == KeyMap(routes)[e]
        invariant Partitions(groups, keyed)
      {
        var e :| e in rest;
        var target := TargetKey(routes[e].targetUrl);
        GroupGrows(groups, keyed, e, target);
        groups := groups[target := Group(groups, target) + [routes[e].email]];
        keyed := keyed[e := target];
        rest := rest - {e};
      }
      assert keyed == KeyMap(routes);
    }

    /** Counts one target's outcome; says whether the target is dead now. */
    method CountOutcome(target: string, outcome: Outcome) returns (dead: bool)
      modifies this`failures
      ensures failures == Counted(old(failures), {target}, k => outcome)
      ensures dead <==> outcome.Down? && CountOf(old(failures), target) + 1 >= failThreshold
    {
      if outcome == Skipped { return false; }
      if outcome == Up {
        failures := failures - {target};
        return false;
      }
      var count := CountOf(failures, target) + 1;
      failures := failures[target := count];
      return count >= failThreshold;
    }

    /** Probes the targets, in no particular order, and collects the dead ones. */
    method ProbeTargets(targets: set<string>, results: Results) returns (dead: set<string>)
      modifies this`failures
      ensures failures == Counted(old(failures), targets, results)
      ensures dead == DeadKeys(failThreshold, old(failures), targets, results)
    {
      dead := {};
      var rest := targets;
      while rest != {}
        invariant rest <= targets
        invariant failures == Counted(old(failures), targets - rest, results)
        invariant dead == DeadKeys(failThreshold, old(failures), targets - rest, results)
      {
        var target :| target in rest;
        var done := targets - rest;
        var dies := CountOutcome(target, results(target));
        CountedGrows(old(failures), done, target, results);
        DeadGrows(failThreshold, old(failures), done, target, results);
        if dies { dead := dead + {target}; }
        rest := rest - {target};
        assert targets - rest == done + {target};
      }
      assert targets - rest == targets;
    }

    method RemoveEmails(router: ProfileRouter, emails: seq<string>, writable: bool)
      requires router.Valid()
      modifies router`routes, router`file
      ensures router.Valid()
      ensures router.routes == old(router.routes) - ToSet(emails)
    {
      var i := 0;
      assert ToSet(emails[..0]) == {};
      hide ToSet, WellFormed;
      while i < |emails|
        invariant i <= |emails|
        invariant router.Valid()
        invariant router.routes == old(router.routes) - ToSet(emails[..i])
      {
        ghost var before := router.routes;
        router.RemoveRoute(emails[i], writable);
        assert router.routes == before - {emails[i]};
        ToSetSnoc(emails, i);
        MinusOne(old(router.routes), ToSet(emails[..i]), emails[i]);
        i := i + 1;
      }
      assert emails[..i] == emails;
    }

    /** Removes the routes of the dead targets one by one, and their counters. */
    method RemoveDead(router: ProfileRouter, dead: set<string>, groups: map<string, seq<string>>,
                      ghost keyed: map<string, string>, writable: bool)
      requires router.Valid() && router.routes.Keys == keyed.Keys && Partitions(groups, keyed)
      modifies this`failures, router`routes, router`file
      ensures router.Valid()
      ensures router.routes == Surviving(old(router.routes), keyed, dead)
      ensures failures == old(failures) - dead
    {
      var rest := dead;
      while rest != {}
        invariant rest <= dead
        invariant router.Valid()
        invariant router.routes == Surviving(old(router.routes), keyed, dead - rest)
        invariant failures == old(failures) - (dead - rest)
      {
        var target :| target in rest;
        var done := dead - rest;
        SurvivingShrinks(old(router.routes), keyed, done, target);
        GroupEmails(groups, keyed, target);
        RemoveEmails(router, Group(groups, target), writable);
        failures := failures - {target};
        rest := rest - {target};
        assert dead - rest == done + {target};
      }
      assert dead - rest == dead;
    }

    /** One round: probe every target, then drop the routes and the counters of the dead ones. */
    method CheckRoutes(router: ProfileRouter, probe: Probe, writable: bool)
      requires Valid() && router.Valid()
      modifies this`failures, router`routes, router`file
      ensures Valid() && router.Valid()
      ensures State(router.routes, failures)
              == AfterRound(failThreshold, State(old(router.routes), old(failures)), probe)
    {
      ghost var keyed := KeyMap(router.routes);
      var results := ProbeResults(probe);
      NextFailuresBounded(failThreshold, failures, keyed.Values, results);
      NoTargets(failThreshold, failures, results);
      if router.routes == map[] {
        assert keyed.Values == {};
        assert Surviving(map[], keyed, {}) == map[];
        return;
      }
      var groups := GroupByTarget(router.routes);
      var dead := ProbeTargets(groups.Keys, results);
      DeadDropped(failThreshold, old(failures), groups.Keys, results);
      RemoveDead(router, dead, groups, keyed, writable);
    }
  }

  lemma CountedGrows(failures: map<string, nat>, done: set<string>, target: string, results: Results)
    requires target !in done
    ensures Counted(Counted(failures, done, results), {target}, k => results(target))
            == Counted(failures, done + {target}, results)
    ensures CountOf(Counted(failures, done, results), target) == CountOf(failures, target)
  {
    var before, all := Counted(failures, done, results), Counted(failures, done + {target}, results);
    var after := Counted(before, {target}, k => results(target));
    assert after.Keys == all.Keys;
    forall k | k in all ensures after[k] == all[k] {
      if k != target { assert after[k] == before[k]; }
    }
  }

  lemma DeadGrows(threshold: nat, failures: map<string, nat>, done: set<string>, target: string, results: Results)
    requires target !in done
    ensures DeadKeys(threshold, failures, done + {target}, results)
            == DeadKeys(threshold, failures, done, results)
               + (if results(target).Down? && CountOf(failures, target) + 1 >= threshold then {target} else {})
  {
  }

  lemma DeadDropped(threshold: nat, failures: map<string, nat>, keys: set<string>, results: Results)
    ensures Counted(failures, keys, results) - DeadKeys(threshold, failures, keys, results)
            == NextFailures(threshold, failures, keys, results)
  {
  }

  lemma NoTargets(threshold: nat, failures: map<string, nat>, results: Results)
    ensures NextFailures(threshold, failures, {}, results) == failures
    ensures DeadKeys(threshold, failures, {}, results) == {}
  {
  }

  lemma SurvivingShrinks(routes: map<string, ProfileRoute>, keyed: map<string, string>, dead: set<string>,
                         target: string)
    requires routes.Keys == keyed.Keys
    ensures Surviving(routes, keyed, dead + {target}) == Surviving(routes, keyed, dead) - EmailsOf(keyed, target)
  {
  }

  // ---------- whole runs ----------

  /** A round as the counters see it: the snapshot's keys and the probe results. */
  datatype Round = Round(keys: set<string>, results: Results)

  function CountsAfter(threshold: nat, rounds: seq<Round>): map<string, nat> {
    if rounds == [] then map[]
    else
      var last := rounds[|rounds| - 1];
      NextFailures(threshold, CountsAfter(threshold, rounds[..|rounds| - 1]), last.keys, last.results)
  }

  /** Whether the last round evicts the key's routes. */
  predicate LastEvicts(threshold: nat, rounds: seq<Round>, key: string)
    requires rounds != []
  {
    var last := rounds[|rounds| - 1];
    Dies(threshold, CountsAfter(threshold, rounds[..|rounds| - 1]), last.keys, last.results, key)
  }

  /** The results of one key's probes, oldest first: true for a success. */
  function Outcomes(rounds: seq<Round>, key: string): seq<bool> {
    if rounds == [] then []
    else
      var last := rounds[|rounds| - 1];
      Outcomes(rounds[..|rounds| - 1], key)
      + (if key in last.keys && !last.results(key).Skipped? then [last.results(key).Up?] else [])
  }

  lemma ModStep(n: nat, limit: nat)
    requires limit >= 1
    ensures (n + 1) % limit == if n % limit + 1 == limit then 0 else n % limit + 1
  {
    var k := n / limit;
    assert n == k * limit + n % limit;
    if n % limit + 1 == limit {
      assert (k + 1) * limit == k * limit + limit;
      DivUnique(n + 1, limit, k + 1, 0);
    } else {
      DivUnique(n + 1, limit, k, n % limit + 1);
    }
  }

  lemma CountStep(threshold: nat, failures: map<string, nat>, keys: set<string>, results: Results, key: string)
    ensures CountOf(NextFailures(threshold, failures, keys, results), key)
            == if key !in keys || results(key).Skipped? then
                 CountOf(failures, key)
               else if results(key).Up? || CountOf(failures, key) + 1 >= threshold then 0
               else CountOf(failures, key) + 1
  {
  }

  /** The counter of a key is the number of its failed probes in a row since its last success or
      eviction, that is, the length of the final run of failures modulo the threshold; and a round
      evicts the key exactly when its probe fails and that run reaches a multiple of the threshold. */
  lemma {:induction false} CounterIsFailureRun(threshold: nat, rounds: seq<Round>, key: string)
    ensures CountOf(CountsAfter(threshold, rounds), key) == Trailing(Outcomes(rounds, key)) % Limit(threshold)
    ensures rounds != [] ==>
              (LastEvicts(threshold, rounds, key)
               <==> key in rounds[|rounds| - 1].keys && rounds[|rounds| - 1].results(key).Down?
                    && Trailing(Outcomes(rounds, key)) % Limit(threshold) == 0)
  {
    if rounds != [] {
      var before, last := rounds[..|rounds| - 1], rounds[|rounds| - 1];
      CounterIsFailureRun(threshold, before, key);
      CountStep(threshold, CountsAfter(threshold, before), last.keys, last.results, key);
      ModStep(Trailing(Outcomes(before, key)), Limit(threshold));
      TrailingSnoc(Outcomes(before, key), last.results(key).Up?);
      assert Outcomes(before, key) + [] == Outcomes(before, key);
    }
  }

  lemma MultipleIsLarge(n: nat, limit: nat)
    requires limit >= 1 && n >= 1 && n % limit == 0
    ensures n >= limit
  {
    if n < limit { DivUnique(n, limit, 0, n); }
  }

  /** A key is evicted only when at least threshold-many of its probes in a row failed, this one last. */
  lemma EvictedOnlyAfterRun(threshold: nat, rounds: seq<Round>, key: string)
    requires rounds != [] && LastEvicts(threshold, rounds, key)
    ensures var o := Outcomes(rounds, key);
            |o| >= Limit(threshold) && forall i :: |o| - Limit(threshold) <= i < |o| ==> !o[i]
  {
    CounterIsFailureRun(threshold, rounds, key);
    var o := Outcomes(rounds, key);
    TrailingSnoc(Outcomes(rounds[..|rounds| - 1], key), false);
    MultipleIsLarge(Trailing(o), Limit(threshold));
    TrailingBound(o);
    forall i | |o| - Limit(threshold) <= i < |o| ensures !o[i] { TrailingAllFailed(o, i); }
  }

  // ---------- runs of rounds, lookups and edits ----------

  datatype Bridge = Bridge(table: Table, failures: map<string, nat>)

  /** The admin API or a load leaves some table, a mail is looked up, or the checker runs. */
  datatype Event = Edited(table: Table) | Looked(email: string) | Checked(probe: Probe)

  function AfterEvent(threshold: nat, b: Bridge, event: Event): Bridge {
    match event
    case Edited(table) => b.(table := table)
    case Looked(email) => b.(table := AfterLookup(b.table, email))
    case Checked(probe) =>
      var s := AfterRound(threshold, State(b.table.routes, b.failures), probe);
      Bridge(b.table.(routes := s.routes), s.failures)
  }

  function After(threshold: nat, b: Bridge, events: seq<Event>): Bridge {
    if events == [] then b
    else AfterEvent(threshold, After(threshold, b, events[..|events| - 1]), events[|events| - 1])
  }

  predicate Holds(b: Bridge, email: string, route: ProfileRoute) {
    email in b.table.routes && b.table.routes[email] == route
  }

  /** Nobody but the checker takes the route away. */
  predicate LeavesRoute(events: seq<Event>, email: string, route: ProfileRoute) {
    forall i :: 0 <= i < |events| && events[i].Edited? ==>
      email in events[i].table.routes && events[i].table.routes[email] == route
  }

  lemma ColonKeyKept(threshold: nat, b: Bridge, event: Event, email: string, route: ProfileRoute,
                     host: string, port: Port)
    requires Holds(b, email, route) && TargetKey(route.targetUrl) == HostPort(host, port) && ':' in host
    requires LeavesRoute([event], email, route)
    ensures Holds(AfterEvent(threshold, b, event), email, route)
    ensures CountOf(AfterEvent(threshold, b, event).failures, HostPort(host, port))
            == CountOf(b.failures, HostPort(host, port))
  {
    assert event == [event][0];
    if event.Checked? {
      ColonHostsAreSkipped(event.probe, host, port);
      CountStep(threshold, b.failures, KeyMap(b.table.routes).Values, ProbeResults(event.probe), HostPort(host, port));
    }
  }

  /** A route whose key has a host with a colon outlives every run of rounds and lookups, however
      long its endpoint is down, and its counter never moves. */
  lemma {:induction false} ColonRouteOutlives(threshold: nat, b: Bridge, events: seq<Event>, email: string,
                                              route: ProfileRoute, host: string, port: Port)
    requires Holds(b, email, route) && LeavesRoute(events, email, route)
    requires TargetKey(route.targetUrl) == HostPort(host, port) && ':' in host
    ensures Holds(After(threshold, b, events), email, route)
    ensures CountOf(After(threshold, b, events).failures, HostPort(host, port))
            == CountOf(b.failures, HostPort(host, port))
  {
    if events != [] {
      var front, last := events[..|events| - 1], events[|events| - 1];
      ColonRouteOutlives(threshold, b, front, email, route, host, port);
      ColonKeyKept(threshold, After(threshold, b, front), last, email, route, host, port);
    }
  }

  const ALL_DOWN: Probe := (host, port) => false

  function DownFor(rounds: nat): seq<Event> {
    if rounds == 0 then [] else DownFor(rounds - 1) + [Checked(ALL_DOWN)]
  }

  lemma {:induction false} DownIsChecks(rounds: nat)
    ensures forall i :: 0 <= i < |DownFor(rounds)| ==> DownFor(rounds)[i] == Checked(ALL_DOWN)
  {
    if rounds > 0 { DownIsChecks(rounds - 1); }
  }

  lemma AfterDown(threshold: nat, b: Bridge, rounds: nat)
    requires rounds > 0
    ensures After(threshold, b, DownFor(rounds))
            == AfterEvent(threshold, After(threshold, b, DownFor(rounds - 1)), Checked(ALL_DOWN))
  {
    var events := DownFor(rounds);
    assert events[..|events| - 1] == DownFor(rounds - 1);
  }

  lemma DownRound(threshold: nat, b: Bridge, email: string, route: ProfileRoute, host: string, port: Port)
    requires TargetKey(route.targetUrl) == HostPort(host, port) && ':' !in host
    requires Holds(AfterEvent(threshold, b, Checked(ALL_DOWN)), email, route)
    ensures Holds(b, email, route)
    ensures CountOf(b.failures, HostPort(host, port)) + 1
            == CountOf(AfterEvent(threshold, b, Checked(ALL_DOWN)).failures, HostPort(host, port)) < threshold
  {
    ColonHostsAreSkipped(ALL_DOWN, host, port);
    assert KeyMap(b.table.routes)[email] == HostPort(host, port);
    CountStep(threshold, b.failures, KeyMap(b.table.routes).Values, ProbeResults(ALL_DOWN), HostPort(host, port));
  }

  lemma {:induction false} DownCounts(threshold: nat, b: Bridge, rounds: nat, email: string, route: ProfileRoute,
                                      host: string, port: Port)
    requires TargetKey(route.targetUrl) == HostPort(host, port) && ':' !in host
    requires rounds > 0 && Holds(After(threshold, b, DownFor(rounds)), email, route)
    ensures rounds <= CountOf(After(threshold, b, DownFor(rounds)).failures, HostPort(host, port)) < threshold
  {
    hide *;
    AfterDown(threshold, b, rounds);
    DownRound(threshold, After(threshold, b, DownFor(rounds - 1)), email, route, host, port);
    if rounds > 1 { DownCounts(threshold, b, rounds - 1, email, route, host, port); }
  }

  /** A route outlives every run in which only the checker could take it away exactly when the host
      of its key has a colon. Otherwise threshold-many rounds in which nothing answers remove it. */
  lemma OutlivesEveryRunIff(threshold: nat, b: Bridge, email: string, route: ProfileRoute, host: string, port: Port)
    requires Holds(b, email, route) && TargetKey(route.targetUrl) == HostPort(host, port)
    ensures (forall events :: LeavesRoute(events, email, route) ==> Holds(After(threshold, b, events), email, route))
            <==> ':' in host
  {
    if ':' in host {
      forall events | LeavesRoute(events, email, route)
        ensures Holds(After(threshold, b, events), email, route)
      {
        ColonRouteOutlives(threshold, b, events, email, route, host, port);
      }
    } else {
      var down := DownFor(Limit(threshold));
      DownIsChecks(Limit(threshold));
      assert LeavesRoute(down, email, route);
      if Holds(After(threshold, b, down), email, route) {
        DownCounts(threshold, b, Limit(threshold), email, route, host, port);
      }
    }
  }

  // ---------- what an eviction means for lookups ----------

  /** The table gives the email nothing but the pattern hit, if there is one. */
  ghost predicate OnlyHit(t: Table, email: string, hit: Option<Pattern>) {
    && FirstMatch(t.patterns, email) == hit
    && (email in t.routes ==> hit.Some? && t.routes[email] == PatternRoute(hit.value, email))
  }

  ghost predicate LeavesHit(events: seq<Event>, email: string, hit: Option<Pattern>) {
    forall i :: 0 <= i < |events| && events[i].Edited? ==> OnlyHit(events[i].table, email, hit)
  }

  lemma {:induction false} OnlyHitStays(threshold: nat, b: Bridge, events: seq<Event>, email: string,
                                        hit: Option<Pattern>)
    requires OnlyHit(b.table, email, hit) && LeavesHit(events, email, hit)
    ensures OnlyHit(After(threshold, b, events).table, email, hit)
  {
    if events != [] {
      OnlyHitStays(threshold, b, events[..|events| - 1], email, hit);
    }
  }

  /** The eviction of an email's route lasts, through every run of rounds and lookups, exactly when no
      loaded pattern matches the email: a pattern answers it as if nothing had been evicted, and each
      lookup writes the route back. */
  lemma EvictionLastsIff(threshold: nat, b: Bridge, events: seq<Event>, email: string)
    requires email !in b.table.routes && LeavesHit(events, email, FirstMatch(b.table.patterns, email))
    ensures var hit := FirstMatch(b.table.patterns, email);
            Answer(After(threshold, b, events).table, email)
            == if hit.None? then None else Some(PatternRoute(hit.value, email))
    ensures var hit := FirstMatch(b.table.patterns, email);
            hit.Some? ==> Holds(After(threshold, b, events + [Looked(email)]), email, PatternRoute(hit.value, email))
  {
    var hit := FirstMatch(b.table.patterns, email);
    OnlyHitStays(threshold, b, events, email, hit);
    assert (events + [Looked(email)])[..|events|] == events;
  }

  // ---------- which routes a round removes ----------

  /** The outcome of a key's probe in one round: a round probes the key when some route has it and the
      key names an endpoint. */
  ghost function ProbeOf(routes: map<string, ProfileRoute>, probe: Probe, key: string): seq<bool> {
    match ProbeTarget(key)
    case None => []
    case Some((host, port)) =>
      if exists e :: e in routes && TargetKey(routes[e].targetUrl) == key then [probe(host, port)] else []
  }

  /** The outcomes of a key's probes in a run, oldest first. */
  ghost function ProbesOf(threshold: nat, b: Bridge, events: seq<Event>, key: string): seq<bool> {
    if events == [] then []
    else
      var front, last := events[..|events| - 1], events[|events| - 1];
      ProbesOf(threshold, b, front, key)
      + match last
        case Checked(probe) => ProbeOf(After(threshold, b, front).table.routes, probe, key)
        case _ => []
  }

  lemma KeyIsProbed(routes: map<string, ProfileRoute>, probe: Probe, key: string)
    ensures ProbeOf(routes, probe, key)
            == if key in KeyMap(routes).Values && !ProbeResults(probe)(key).Skipped?
               then [ProbeResults(probe)(key).Up?] else []
  {
    hide TargetKey;
    if key in KeyMap(routes).Values {
      var e :| e in KeyMap(routes) && KeyMap(routes)[e] == key;
      assert TargetKey(routes[e].targetUrl) == key;
    }
    if e :| e in routes && TargetKey(routes[e].targetUrl) == key {
      assert KeyMap(routes)[e] == key;
    }
  }

  /** Over every run of rounds, lookups and edits, the counter of a key is the length of its final run
      of failed probes, modulo the threshold. */
  lemma {:induction false} CounterFollowsProbes(threshold: nat, table: Table, events: seq<Event>, key: string)
    ensures var b := Bridge(table, map[]);
            CountOf(After(threshold, b, events).failures, key)
            == Trailing(ProbesOf(threshold, b, events, key)) % Limit(threshold)
  {
    var b := Bridge(table, map[]);
    if events != [] {
      var front, last := events[..|events| - 1], events[|events| - 1];
      CounterFollowsProbes(threshold, table, front, key);
      var before, probes := After(threshold, b, front), ProbesOf(threshold, b, front, key);
      if last.Checked? {
        RoundCounts(threshold, before, last.probe, key, probes);
      } else {
        assert probes + [] == probes;
      }
    }
  }

  lemma OneMoreProbe(probes: seq<bool>, one: seq<bool>, limit: nat)
    requires limit >= 1 && |one| <= 1
    ensures var count := Trailing(probes) % limit;
            Trailing(probes + one) % limit
            == if one == [] then count else if one[0] || count + 1 == limit then 0 else count + 1
  {
    var n := Trailing(probes);
    if one == [] {
      assert probes + one == probes;
    } else {
      TrailingSnoc(probes, one[0]);
      assert one == [one[0]];
      hide Trailing;
      if one[0] {
        DivUnique(0, limit, 0, 0);
      } else {
        ModStep(n, limit);
        assert Trailing(probes + one) == n + 1;
      }
    }
  }

  lemma RoundCounts(threshold: nat, b: Bridge, probe: Probe, key: string, probes: seq<bool>)
    requires CountOf(b.failures, key) == Trailing(probes) % Limit(threshold)
    ensures CountOf(AfterEvent(threshold, b, Checked(probe)).failures, key)
            == Trailing(probes + ProbeOf(b.table.routes, probe, key)) % Limit(threshold)
  {
    var keys, results := KeyMap(b.table.routes).Values, ProbeResults(probe);
    KeyIsProbed(b.table.routes, probe, key);
    assert AfterEvent(threshold, b, Checked(probe)).failures == NextFailures(threshold, b.failures, keys, results);
    CountStep(threshold, b.failures, keys, results, key);
    hide AfterEvent, NextFailures, ProbeResults, KeyMap, ProbeOf, CountOf, Trailing;
    OneMoreProbe(probes, ProbeOf(b.table.routes, probe, key), Limit(threshold));
  }

  /** A round leaves an email its route unless the probe of the route's key fails and makes the number
      of that key's failed probes in a row a multiple of the threshold; it changes no route, adds none,
      and leaves the patterns alone. */
  lemma RoundRemovesIff(threshold: nat, table: Table, events: seq<Event>, probe: Probe, email: string)
    ensures var b := Bridge(table, map[]);
            var before := After(threshold, b, events).table;
            var after := After(threshold, b, events + [Checked(probe)]).table;
            && after.patterns == before.patterns
            && (email in after.routes ==> email in before.routes && after.routes[email] == before.routes[email])
            && (email in before.routes ==>
                  var key := TargetKey(before.routes[email].targetUrl);
                  var probes := ProbesOf(threshold, b, events + [Checked(probe)], key);
                  (email !in after.routes
                   <==> ProbeTarget(key).Some? && !probe(ProbeTarget(key).value.0, ProbeTarget(key).value.1)
                        && Trailing(probes) % (if threshold == 0 then 1 else threshold) == 0))
  {
    var b := Bridge(table, map[]);
    var all := events + [Checked(probe)];
    assert all[..|events|] == events;
    var before := After(threshold, b, events);
    if email in before.table.routes {
      var key := TargetKey(before.table.routes[email].targetUrl);
      CounterFollowsProbes(threshold, table, events, key);
      RoundRemoves(threshold, before, probe, email, ProbesOf(threshold, b, events, key));
    }
  }

  lemma RemovedIffDead(threshold: nat, b: Bridge, probe: Probe, email: string)
    requires email in b.table.routes
    ensures var key := TargetKey(b.table.routes[email].targetUrl);
            email !in AfterEvent(threshold, b, Checked(probe)).table.routes
            <==> ProbeResults(probe)(key).Down? && CountOf(b.failures, key) + 1 >= threshold
    ensures TargetKey(b.table.routes[email].targetUrl) in KeyMap(b.table.routes).Values
  {
    hide TargetKey, ProbeResults;
    assert KeyMap(b.table.routes)[email] == TargetKey(b.table.routes[email].targetUrl);
  }

  lemma RoundRemoves(threshold: nat, b: Bridge, probe: Probe, email: string, probes: seq<bool>)
    requires email in b.table.routes
    requires CountOf(b.failures, TargetKey(b.table.routes[email].targetUrl)) == Trailing(probes) % Limit(threshold)
    ensures var key := TargetKey(b.table.routes[email].targetUrl);
            email !in AfterEvent(threshold, b, Checked(probe)).table.routes
            <==> ProbeTarget(key).Some? && !probe(ProbeTarget(key).value.0, ProbeTarget(key).value.1)
                 && Trailing(probes + ProbeOf(b.table.routes, probe, key)) % Limit(threshold) == 0
  {
    var key := TargetKey(b.table.routes[email].targetUrl);
    RemovedIffDead(threshold, b, probe, email);
    KeyIsProbed(b.table.routes, probe, key);
    assert ProbeResults(probe)(key).Down?
        <==> ProbeTarget(key).Some? && !probe(ProbeTarget(key).value.0, ProbeTarget(key).value.1);
    hide AfterEvent, ProbeResults, KeyMap, ProbeOf, CountOf, Trailing, TargetKey, ProbeTarget;
    OneMoreProbe(probes, ProbeOf(b.table.routes, probe, key), Limit(threshold));
  }
}
