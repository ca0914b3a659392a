/** One iteration of the pull loop: the steps it consists of, the drained relay, and the loop object
    that carries it out against the route table. */
module PullCycle {
  import opened Options
  import opened Arith
  import opened Route
  import opened RouteTable
  import opened Router
  import opened Pull

  /** What the environment contributes to the handling of one delivery: clock readings, and the
      agent's reply in case it is asked. */
  datatype Attempt = Attempt(id: int, email: string, checkAt: nat, reply: Reply, doneAt: nat)
  datatype Batch = Batch(body: string, deliveries: seq<Attempt>)

  /** One iteration's environment; `fetched` is None when the fetch failed. */
  datatype Script = Script(at: int -> nat, upTo: nat, fetched: Option<seq<Batch>>, ack: AckOutcome)

  /** Where a table sends an email. */
  function Target(t: Table, email: string): Option<string> {
    match Answer(t, email)
    case Some(r) => Some(r.targetUrl)
    case None => None
  }

  function StepOf(t: Table, body: string, a: Attempt): Step {
    Deliver(a.id, a.email, Target(t, a.email), body, a.checkAt, a.reply, a.doneAt)
  }

  function BatchSteps(t: Table, body: string, deliveries: seq<Attempt>): seq<Step> {
    if deliveries == [] then []
    else BatchSteps(t, body, deliveries[..|deliveries| - 1]) + [StepOf(t, body, deliveries[|deliveries| - 1])]
  }

  function DeliverSteps(t: Table, batches: seq<Batch>): seq<Step> {
    if batches == [] then []
    else
      var last := batches[|batches| - 1];
      DeliverSteps(t, batches[..|batches| - 1]) + BatchSteps(t, last.body, last.deliveries)
  }

  /** The steps of one iteration, given the table its lookups see. */
  function CycleSteps(t: Table, c: Script): seq<Step> {
    match c.fetched
    case None => [Begin(c.at, c.upTo), Fetched(false)]
    case Some(batches) => [Begin(c.at, c.upTo), Fetched(true)] + DeliverSteps(t, batches) + [Acknowledge(c.ack)]
  }

  const MAX_BACKOFF: nat := 300

  function Min(a: nat, b: nat): nat {
    if a < b then a else b
  }

  /** Seconds to wait after the given number of failed fetches in a row. */
  function Backoff(pollInterval: nat, failures: nat): nat {
    Min(pollInterval * Pow2(Min(failures, 6)), MAX_BACKOFF)
  }

  // ---------- draining ----------

  /** In this cycle everything works: each offered id is pending, has a route and an accepting agent,
      the ACK lands, and the relay offers something unless nothing is pending. */
  ghost predicate Healthy(w: World, t: Table, c: Script) {
    && c.fetched.Some? && !c.ack.AckLost?
    && (var steps := DeliverSteps(t, c.fetched.value);
        && (w.relay.pending != {} ==> steps != [])
        && forall i :: 0 <= i < |steps| ==>
             steps[i].Deliver? && steps[i].id in w.relay.pending && steps[i].target.Some? && steps[i].reply.Success?)
  }

  lemma AcceptedIsListed(w: World, s: Step)
    requires s.Deliver? && s.target.Some? && s.reply.Success?
    ensures WorldStep(w, s).relay == w.relay && WorldStep(w, s).loop.ackIds == w.loop.ackIds + [s.id]
  {
  }

  lemma DeliveriesListed(w: World, steps: seq<Step>)
    requires forall i :: 0 <= i < |steps| ==> steps[i].Deliver? && steps[i].target.Some? && steps[i].reply.Success?
    ensures Run(w, steps).relay == w.relay
    ensures forall i :: 0 <= i < |steps| ==> steps[i].id in Run(w, steps).loop.ackIds
  {
    hide WorldStep;
    if steps != [] {
      var front := steps[..|steps| - 1];
      DeliveriesListed(w, front);
      AcceptedIsListed(Run(w, front), steps[|steps| - 1]);
      forall i | 0 <= i < |front| ensures steps[i] == front[i] {}
    }
  }

  lemma OpeningKeepsRelay(w: World, c: Script)
    ensures Run(w, [Begin(c.at, c.upTo), Fetched(true)]).relay == w.relay
  {
    var begin := [Begin(c.at, c.upTo)];
    var opening := [Begin(c.at, c.upTo), Fetched(true)];
    assert begin[..0] == [] && opening[..1] == begin;
    assert Run(w, opening) == WorldStep(Run(w, begin), Fetched(true));
    assert Run(w, begin) == WorldStep(Run(w, []), begin[0]);
  }

  /** A healthy cycle strictly shrinks the pending set. */
  lemma HealthyCycleShrinks(w: World, t: Table, c: Script)
    requires Healthy(w, t, c)
    ensures Run(w, CycleSteps(t, c)).relay.pending <= w.relay.pending
    ensures w.relay.pending != {} ==> Run(w, CycleSteps(t, c)).relay.pending < w.relay.pending
  {
    var steps := DeliverSteps(t, c.fetched.value);
    var opening := [Begin(c.at, c.upTo), Fetched(true)];
    RunSplits(w, opening, steps);
    RunSplits(w, opening + steps, [Acknowledge(c.ack)]);
    OpeningKeepsRelay(w, c);
    var w1 := Run(w, opening);
    DeliveriesListed(w1, steps);
    var w2 := Run(w1, steps);
    assert [Acknowledge(c.ack)][..0] == [];
    assert Run(w, CycleSteps(t, c)) == WorldStep(w2, Acknowledge(c.ack));
    if w.relay.pending != {} {
      assert steps[0].id in w.relay.pending && steps[0].id in IdSet(w2.loop.ackIds);
    }
  }

  function RunCycles(w: World, t: Table, cycles: seq<Script>): World
    decreases |cycles|
  {
    if cycles == [] then w else RunCycles(Run(w, CycleSteps(t, cycles[0])), t, cycles[1..])
  }

  ghost predicate AllHealthy(w: World, t: Table, cycles: seq<Script>)
    decreases |cycles|
  {
    cycles == [] || (Healthy(w, t, cycles[0]) && AllHealthy(Run(w, CycleSteps(t, cycles[0])), t, cycles[1..]))
  }

  /** Healthy cycles empty the relay, in at most as many cycles as messages were pending. */
  lemma {:induction false} HealthyCyclesDrain(w: World, t: Table, cycles: seq<Script>)
    requires AllHealthy(w, t, cycles) && |cycles| >= |w.relay.pending|
    ensures RunCycles(w, t, cycles).relay.pending == {}
    decreases |cycles|
  {
    if cycles != [] {
      var w' := Run(w, CycleSteps(t, cycles[0]));
      HealthyCycleShrinks(w, t, cycles[0]);
      SmallerSet(w'.relay.pending, w.relay.pending);
      HealthyCyclesDrain(w', t, cycles[1..]);
    }
  }

  lemma SmallerSet(a: set<int>, b: set<int>)
    requires a <= b
    ensures |a| <= |b| && (a != b ==> |a| < |b|)
  {
    assert b == a + (b - a) && |b| == |a| + |b - a|;
    if a != b { assert b - a != {}; }
  }

  // ---------- the loop object ----------

  /** The pull loop: its dedup cache and failure counters live as long as the loop, the two lists
      as long as one iteration. */
  class PullLoop {
    const pollInterval: nat
    var seen: map<int, nat>
    var ackIds: seq<int>
    var forwardedEmails: seq<string>
    var consecutiveFailures: nat
    var consecutiveAckFailures: nat

    ghost function State(): LoopState
      reads this
    {
      LoopState(seen, ackIds, forwardedEmails, consecutiveFailures, consecutiveAckFailures)
    }

    constructor (pollInterval: nat)
      ensures State() == START && this.pollInterval == pollInterval
    {
      this.pollInterval := pollInterval;
      seen, ackIds, forwardedEmails, consecutiveFailures, consecutiveAckFailures := map[], [], [], 0, 0;
    }

    /** The head of an iteration: stale cache entries are dropped, the lists start empty. */
    method BeginCycle(at: int -> nat, ghost upTo: nat)
      modifies this`seen, this`ackIds, this`forwardedEmails
      ensures State() == LoopStep(old(State()), Begin(at, upTo))
    {
      seen := map id | id in seen && Elapsed(at(id), seen[id]) < SEEN_TTL :: seen[id];
      ackIds, forwardedEmails := [], [];
    }

    /** Handles one delivery: skip, no route, or POST and record a 2xx. */
    method Forward(router: ProfileRouter, body: string, a: Attempt, ghost t: Table) returns (post: Option<Post>)
      requires router.Valid() && SameAnswers(router.Contents(), t)
      modifies this`seen, this`ackIds, this`forwardedEmails, router`routes
      ensures router.Valid() && SameAnswers(router.Contents(), t)
      ensures State() == LoopStep(old(State()), StepOf(t, body, a))
      ensures post == Posted(old(State()), StepOf(t, body, a))
    {
      if a.id in seen && Elapsed(a.checkAt, seen[a.id]) < SEEN_TTL {
        forwardedEmails := forwardedEmails + [a.email];
        ackIds := ackIds + [a.id];
        return None;
      }
      var route := router.Lookup(a.email);
      LookupKeepsSame(old(router.Contents()), a.email, t);
      if route == None { return None; }
      post := Some(Post(a.id, a.email, route.value.targetUrl, body, a.checkAt, a.reply, a.doneAt));
      if a.reply == Success {
        seen := seen[a.id := a.doneAt];
        forwardedEmails := forwardedEmails + [a.email];
        ackIds := ackIds + [a.id];
      }
    }

    /** Handles the deliveries of one batch, in order. */
    method ForwardBatch(router: ProfileRouter, batch: Batch, ghost t: Table) returns (posts: seq<Post>)
      requires router.Valid() && SameAnswers(router.Contents(), t)
      modifies this`seen, this`ackIds, this`forwardedEmails, router`routes
      ensures router.Valid() && SameAnswers(router.Contents(), t)
      ensures State() == LoopRun(old(State()), BatchSteps(t, batch.body, batch.deliveries))
      ensures posts == PostsOf(old(State()), BatchSteps(t, batch.body, batch.deliveries))
    {
      posts := [];
      var i := 0;
      hide SameAnswers, LoopStep, WellFormed;
      while i < |batch.deliveries|
        invariant i <= |batch.deliveries|
        invariant router.Valid() && SameAnswers(router.Contents(), t)
        invariant State() == LoopRun(old(State()), BatchSteps(t, batch.body, batch.deliveries[..i]))
        invariant posts == PostsOf(old(State()), BatchSteps(t, batch.body, batch.deliveries[..i]))
      {
        var post := Forward(router, batch.body, batch.deliveries[i], t);
        StepExtends(old(State()), BatchSteps(t, batch.body, batch.deliveries[..i]),
                    StepOf(t, batch.body, batch.deliveries[i]));
        assert batch.deliveries[..i + 1][..i] == batch.deliveries[..i];
        if post.Some? { posts := posts + [post.value]; }
        i := i + 1;
      }
      assert batch.deliveries[..i] == batch.deliveries;
    }

    /** The tail of an iteration: one ACK request for everything listed, if anything is. */
    method SendAck(outcome: AckOutcome) returns (acked: Option<seq<int>>)
      modifies this`consecutiveAckFailures
      ensures State() == LoopStep(old(State()), Acknowledge(outcome))
      ensures acked == if ackIds != [] then Some(ackIds) else None
    {
      if ackIds == [] { return None; }
      consecutiveAckFailures := if outcome == AckConfirmed then 0 else consecutiveAckFailures + 1;
      return Some(ackIds);
    }

    /** Handles all batches of a successful fetch. */
    method ForwardAll(router: ProfileRouter, batches: seq<Batch>, ghost t: Table) returns (posts: seq<Post>)
      requires router.Valid() && SameAnswers(router.Contents(), t)
      modifies this`seen, this`ackIds, this`forwardedEmails, router`routes
      ensures router.Valid() && SameAnswers(router.Contents(), t)
      ensures State() == LoopRun(old(State()), DeliverSteps(t, batches))
      ensures posts == PostsOf(old(State()), DeliverSteps(t, batches))
    {
      posts := [];
      var i := 0;
      while i < |batches|
        invariant i <= |batches|
        invariant router.Valid() && SameAnswers(router.Contents(), t)
        invariant State() == LoopRun(old(State()), DeliverSteps(t, batches[..i]))
        invariant posts == PostsOf(old(State()), DeliverSteps(t, batches[..i]))
      {
        var more := ForwardBatch(router, batches[i], t);
        assert batches[..i + 1][..i] == batches[..i];
        LoopRunSplits(old(State()), DeliverSteps(t, batches[..i]),
                      BatchSteps(t, batches[i].body, batches[i].deliveries));
        posts := posts + more;
        i := i + 1;
      }
      assert batches[..i] == batches;
    }

    /** One iteration of the loop. Returns the POSTs made, the ids it asked the relay to drop (None
        when it sent no ACK) and the seconds to sleep. */
    method Cycle(router: ProfileRouter, c: Script)
      returns (posts: seq<Post>, acked: Option<seq<int>>, sleepSecs: nat)
      requires router.Valid()
      modifies this, router`routes
      ensures router.Valid() && SameAnswers(router.Contents(), old(router.Contents()))
      ensures State() == LoopRun(old(State()), CycleSteps(old(router.Contents()), c))
      ensures posts == PostsOf(old(State()), CycleSteps(old(router.Contents()), c))
      ensures acked == if c.fetched.Some? && ackIds != [] then Some(ackIds) else None
      ensures sleepSecs == if c.fetched.Some? then pollInterval else Backoff(pollInterval, consecutiveFailures)
    {
      ghost var t := router.Contents();
      ghost var start := State();
      BeginCycle(c.at, c.upTo);
      if c.fetched == None {
        consecutiveFailures := consecutiveFailures + 1;
        CycleFailed(start, t, c);
        return [], None, Backoff(pollInterval, consecutiveFailures);
      }
      consecutiveFailures := 0;
      posts := ForwardAll(router, c.fetched.value, t);
      acked := SendAck(c.ack);
      CycleSucceeded(start, t, c);
      sleepSecs := pollInterval;
    }
  }

  lemma OneStep(l: LoopState, s: Step)
    ensures LoopRun(l, [s]) == LoopStep(l, s)
    ensures Posted(l, s) == None ==> PostsOf(l, [s]) == []
  {
    assert [s][..0] == [];
  }

  lemma CycleFailed(l: LoopState, t: Table, c: Script)
    requires c.fetched == None
    ensures LoopRun(l, CycleSteps(t, c)) == LoopStep(LoopStep(l, Begin(c.at, c.upTo)), Fetched(false))
    ensures PostsOf(l, CycleSteps(t, c)) == []
  {
    OneStep(l, Begin(c.at, c.upTo));
    StepExtends(l, [Begin(c.at, c.upTo)], Fetched(false));
    assert CycleSteps(t, c) == [Begin(c.at, c.upTo)] + [Fetched(false)];
  }

  lemma CycleSucceeded(l: LoopState, t: Table, c: Script)
    requires c.fetched.Some?
    ensures var begun := LoopStep(LoopStep(l, Begin(c.at, c.upTo)), Fetched(true));
            var delivered := LoopRun(begun, DeliverSteps(t, c.fetched.value));
            && LoopRun(l, CycleSteps(t, c)) == LoopStep(delivered, Acknowledge(c.ack))
            && PostsOf(l, CycleSteps(t, c)) == PostsOf(begun, DeliverSteps(t, c.fetched.value))
  {
    var begin := [Begin(c.at, c.upTo)];
    var steps := DeliverSteps(t, c.fetched.value);
    OneStep(l, Begin(c.at, c.upTo));
    StepExtends(l, begin, Fetched(true));
    LoopRunSplits(l, begin + [Fetched(true)], steps);
    StepExtends(l, begin + [Fetched(true)] + steps, Acknowledge(c.ack));
    assert CycleSteps(t, c) == begin + [Fetched(true)] + steps + [Acknowledge(c.ack)];
  }

  lemma StepExtends(l: LoopState, steps: seq<Step>, s: Step)
    ensures LoopRun(l, steps + [s]) == LoopStep(LoopRun(l, steps), s)
    ensures Posted(LoopRun(l, steps), s) == None ==> PostsOf(l, steps + [s]) == PostsOf(l, steps)
    ensures Posted(LoopRun(l, steps), s).Some? ==>
              PostsOf(l, steps + [s]) == PostsOf(l, steps) + [Posted(LoopRun(l, steps), s).value]
  {
    assert (steps + [s])[..|steps|] == steps;
  }

  lemma LoopRunSplits(l: LoopState, a: seq<Step>, b: seq<Step>)
    ensures LoopRun(l, a + b) == LoopRun(LoopRun(l, a), b)
    ensures PostsOf(l, a + b) == PostsOf(l, a) + PostsOf(LoopRun(l, a), b)
  {
    if b == [] {
      assert a + b == a;
    } else {
      assert (a + b)[..|a + b| - 1] == a + b[..|b| - 1];
      LoopRunSplits(l, a, b[..|b| - 1]);
    }
  }
}
