/** Where mail goes and what it carries: the POSTs of the pull loop in terms of what was registered,
    what the relay offered and what the loop remembers. */
module Deliveries {
  import opened Options
  import opened Text
  import opened Arith
  import opened KeyOrder
  import opened Route
  import opened RouteTable
  import opened Lookups
  import opened Ranks
  import opened Pull
  import opened PullCycle

  // ---------- one delivery ----------

  /** The loop remembers a success for the id that is younger than two hours. */
  predicate Remembered(l: LoopState, a: Attempt) {
    a.id in l.seen && a.checkAt - l.seen[a.id] < 7_200_000_000_000
  }

  /** The delivery is asked to be dropped: its id is remembered, or its agent accepts it now. */
  predicate Acknowledged(l: LoopState, t: Table, a: Attempt) {
    Remembered(l, a) || (Answer(t, a.email).Some? && a.reply.Success?)
  }

  /** A delivery is posted exactly when its id is not remembered and its email has a route: to the
      route's target, with the batch's body. It is listed for the ACK when it is acknowledged, and
      remembered from the moment it succeeds. */
  lemma DeliveryMeans(l: LoopState, t: Table, body: string, a: Attempt)
    ensures Posted(l, StepOf(t, body, a))
            == if Remembered(l, a) || Answer(t, a.email).None? then None
               else Some(Post(a.id, a.email, Answer(t, a.email).value.targetUrl, body, a.checkAt, a.reply, a.doneAt))
    ensures var after := LoopStep(l, StepOf(t, body, a));
            && after.ackIds == l.ackIds + (if Acknowledged(l, t, a) then [a.id] else [])
            && after.forwardedEmails == l.forwardedEmails + (if Acknowledged(l, t, a) then [a.email] else [])
            && after.seen == (if Acknowledged(l, t, a) && !Remembered(l, a) then l.seen[a.id := a.doneAt] else l.seen)
            && after.consecutiveFailures == l.consecutiveFailures
            && after.consecutiveAckFailures == l.consecutiveAckFailures
  {
  }

  /** Mail for an email that was registered with a URL goes to that URL, and with a host and port to
      the default path there, through every run of lookups and operations on other emails. */
  lemma RegisteredMailGoes(t: Table, hostOrUrl: string, port: Port, ops: seq<Operation>,
                           l: LoopState, body: string, a: Attempt)
    requires LeavesAlone(ops, a.email) && !Remembered(l, a)
    ensures var now := AfterAll(Changed(t, Update(a.email, hostOrUrl, port)), ops);
            var post := Posted(l, StepOf(now, body, a));
            post == Some(Post(a.id, a.email, Destination(hostOrUrl, port), body, a.checkAt, a.reply, a.doneAt))
  {
    RegistrationHolds(t, a.email, hostOrUrl, port, ops);
    DeliveryMeans(l, AfterAll(Changed(t, Update(a.email, hostOrUrl, port)), ops), body, a);
  }

  /** After a load, mail for an email that the file does not spell out is posted exactly when a pattern
      of the file matches it: to the host and port of the first one that does. */
  lemma PatternMailGoes(order: seq<string>, overrides: map<string, ProfileRoute>, compile: Compiler,
                        l: LoopState, body: string, a: Attempt)
    requires Enumerates(order, overrides.Keys) && !Remembered(l, a)
    requires !(a.email in overrides && !HasRegexChar(a.email))
    ensures var post := Posted(l, StepOf(Loaded(overrides, order, compile), body, a));
            && (post.Some? <==> exists k :: Hits(k, overrides, compile, a.email))
            && (post.Some? ==>
                  exists i: nat, host, port :: HitAt(order, overrides, compile, a.email, i, host, port)
                    && post.value == Post(a.id, a.email, DefaultDestination(host, port), body,
                                          a.checkAt, a.reply, a.doneAt))
  {
    LoadedAnswer(order, overrides, compile, a.email);
    DeliveryMeans(l, Loaded(overrides, order, compile), body, a);
    hide Loaded, Hits, HasRegexChar, HitAt, Posted, StepOf, Answer, DefaultDestination;
  }

  // ---------- the steps of one iteration ----------

  /** The number of deliveries in the first `n` batches. */
  function Offset(batches: seq<Batch>, n: nat): nat
    requires n <= |batches|
  {
    if n == 0 then 0 else Offset(batches, n - 1) + |batches[n - 1].deliveries|
  }

  lemma {:induction false} BatchStepAt(t: Table, body: string, deliveries: seq<Attempt>)
    ensures |BatchSteps(t, body, deliveries)| == |deliveries|
    ensures forall j :: 0 <= j < |deliveries| ==> BatchSteps(t, body, deliveries)[j] == StepOf(t, body, deliveries[j])
  {
    if deliveries != [] { BatchStepAt(t, body, deliveries[..|deliveries| - 1]); }
  }

  lemma {:induction false} OffsetFront(batches: seq<Batch>, n: nat)
    requires n < |batches|
    ensures Offset(batches, n) == Offset(batches[..|batches| - 1], n)
  {
    if n > 0 { OffsetFront(batches, n - 1); }
  }

  /** An iteration takes as many delivery steps as deliveries were offered ... */
  lemma {:induction false} NoDeliveryMore(t: Table, batches: seq<Batch>)
    ensures |DeliverSteps(t, batches)| == Offset(batches, |batches|)
  {
    if batches != [] {
      var front, last := batches[..|batches| - 1], batches[|batches| - 1];
      NoDeliveryMore(t, front);
      BatchStepAt(t, last.body, last.deliveries);
      OffsetFront(batches, |front|);
    }
  }

  /** ... one for each, in the order of the batches and within them, to where the table routes its
      email and with the body of its own batch. */
  lemma {:induction false} EachDeliveryOnce(t: Table, batches: seq<Batch>, i: nat, j: nat)
    requires i < |batches| && j < |batches[i].deliveries|
    ensures Offset(batches, i) + j < |DeliverSteps(t, batches)|
    ensures var a, r := batches[i].deliveries[j], Answer(t, batches[i].deliveries[j].email);
            DeliverSteps(t, batches)[Offset(batches, i) + j]
            == Deliver(a.id, a.email, if r.Some? then Some(r.value.targetUrl) else None, batches[i].body,
                       a.checkAt, a.reply, a.doneAt)
  {
    var front, last := batches[..|batches| - 1], batches[|batches| - 1];
    NoDeliveryMore(t, front);
    BatchStepAt(t, last.body, last.deliveries);
    OffsetFront(batches, i);
    if i < |front| {
      assert front[i] == batches[i];
      EachDeliveryOnce(t, front, i, j);
    }
  }

  // ---------- what one iteration posts and acknowledges ----------

  predicate Skips(l: LoopState, s: Step)
    requires s.Deliver?
  {
    s.id in l.seen && s.checkAt - l.seen[s.id] < 7_200_000_000_000
  }

  ghost predicate Deliveries(steps: seq<Step>) {
    forall i :: 0 <= i < |steps| ==> steps[i].Deliver?
  }

  /** Which deliveries are posted. */
  function PostFlags(l: LoopState, steps: seq<Step>): seq<bool>
    requires Deliveries(steps)
  {
    seq(|steps|, i requires 0 <= i < |steps| => !Skips(LoopRun(l, steps[..i]), steps[i]) && steps[i].target.Some?)
  }

  /** Which deliveries are acknowledged. */
  function AckFlags(l: LoopState, steps: seq<Step>): seq<bool>
    requires Deliveries(steps)
  {
    seq(|steps|, i requires 0 <= i < |steps| =>
      Skips(LoopRun(l, steps[..i]), steps[i]) || (steps[i].target.Some? && steps[i].reply.Success?))
  }

  ghost predicate PostFits(s: Step, p: Post) {
    s.Deliver? && s.target.Some? && p == Post(s.id, s.email, s.target.value, s.body, s.checkAt, s.reply, s.doneAt)
  }

  ghost predicate IdFits(s: Step, id: int) {
    s.Deliver? && id == s.id
  }

  ghost predicate EmailFits(s: Step, email: string) {
    s.Deliver? && email == s.email
  }

  lemma FlagsSnoc(l: LoopState, steps: seq<Step>)
    requires Deliveries(steps) && steps != []
    ensures var front, s := steps[..|steps| - 1], steps[|steps| - 1];
            var before := LoopRun(l, front);
            && PostFlags(l, steps) == PostFlags(l, front) + [!Skips(before, s) && s.target.Some?]
            && AckFlags(l, steps) == AckFlags(l, front) + [Skips(before, s) || (s.target.Some? && s.reply.Success?)]
  {
    hide LoopRun, Skips;
    var front := steps[..|steps| - 1];
    forall i | 0 <= i < |front|
      ensures PostFlags(l, steps)[i] == PostFlags(l, front)[i] && AckFlags(l, steps)[i] == AckFlags(l, front)[i]
    {
      assert steps[..i] == front[..i] && steps[i] == front[i];
    }
  }

  lemma PostFitsStep(l: LoopState, s: Step)
    requires s.Deliver?
    ensures Posted(l, s).Some? <==> !Skips(l, s) && s.target.Some?
    ensures Posted(l, s).Some? ==> PostFits(s, Posted(l, s).value)
  {
  }

  lemma {:induction false} PostsKept(l: LoopState, steps: seq<Step>)
    requires Deliveries(steps)
    ensures Keeps(PostsOf(l, steps), steps, PostFlags(l, steps), PostFits)
  {
    if steps == [] {
      KeepsNothing(PostFits);
      assert PostFlags(l, steps) == [];
    } else {
      hide Keeps;
      PostsKept(l, steps[..|steps| - 1]);
      OneMoreKept(l, steps);
    }
  }

  lemma OneMoreKept(l: LoopState, steps: seq<Step>)
    requires Deliveries(steps) && steps != []
    requires var front := steps[..|steps| - 1]; Keeps(PostsOf(l, front), front, PostFlags(l, front), PostFits)
    ensures Keeps(PostsOf(l, steps), steps, PostFlags(l, steps), PostFits)
  {
    hide Keeps, PostsOf, PostFlags, PostFits, Skips, LoopRun;
    var front, s := steps[..|steps| - 1], steps[|steps| - 1];
    FlagsSnoc(l, steps);
    var more := MorePosts(l, steps);
    assert front + [s] == steps;
    KeepsSnoc(PostsOf(l, front), front, PostFlags(l, front), PostFits, more, s,
              !Skips(LoopRun(l, front), s) && s.target.Some?);
  }

  lemma MorePosts(l: LoopState, steps: seq<Step>) returns (more: seq<Post>)
    requires steps != [] && steps[|steps| - 1].Deliver?
    ensures var front, s := steps[..|steps| - 1], steps[|steps| - 1];
            && PostsOf(l, steps) == PostsOf(l, front) + more
            && |more| == (if !Skips(LoopRun(l, front), s) && s.target.Some? then 1 else 0)
            && (more != [] ==> PostFits(s, more[0]))
  {
    var front, s := steps[..|steps| - 1], steps[|steps| - 1];
    PostFitsStep(LoopRun(l, front), s);
    var post := Posted(LoopRun(l, front), s);
    hide Posted, Skips, PostFits, LoopRun;
    more := if post.Some? then [post.value] else [];
    assert PostsOf(l, front) + [] == PostsOf(l, front);
  }

  lemma {:induction false} AcksKept(l: LoopState, steps: seq<Step>)
    requires Deliveries(steps) && l.ackIds == [] && l.forwardedEmails == []
    ensures Keeps(LoopRun(l, steps).ackIds, steps, AckFlags(l, steps), IdFits)
    ensures Keeps(LoopRun(l, steps).forwardedEmails, steps, AckFlags(l, steps), EmailFits)
  {
    if steps == [] {
      KeepsNothing(IdFits);
      KeepsNothing(EmailFits);
      assert AckFlags(l, steps) == [];
    } else {
      var front, s := steps[..|steps| - 1], steps[|steps| - 1];
      AcksKept(l, front);
      FlagsSnoc(l, steps);
      var before := LoopRun(l, front);
      var flag := Skips(before, s) || (s.target.Some? && s.reply.Success?);
      AckStep(before, s, flag);
      assert LoopRun(l, steps) == LoopStep(before, s) && front + [s] == steps;
      var id, email := if flag then [s.id] else [], if flag then [s.email] else [];
      hide LoopRun, LoopStep, AckFlags, Keeps, Skips;
      KeepsSnoc(before.ackIds, front, AckFlags(l, front), IdFits, id, s, flag);
      KeepsSnoc(before.forwardedEmails, front, AckFlags(l, front), EmailFits, email, s, flag);
    }
  }

  lemma AckStep(l: LoopState, s: Step, flag: bool)
    requires s.Deliver? && flag == (Skips(l, s) || (s.target.Some? && s.reply.Success?))
    ensures LoopStep(l, s).ackIds == l.ackIds + (if flag then [s.id] else [])
    ensures LoopStep(l, s).forwardedEmails == l.forwardedEmails + (if flag then [s.email] else [])
    ensures IdFits(s, s.id) && EmailFits(s, s.email)
  {
  }

  /** The start of an iteration: entries of two hours and more are forgotten, the lists are empty. */
  ghost predicate Begun(l: LoopState, c: Script, begun: LoopState) {
    && (forall id :: id in begun.seen <==> id in l.seen && c.at(id) - l.seen[id] < 7_200_000_000_000)
    && (forall id :: id in begun.seen ==> begun.seen[id] == l.seen[id])
    && begun.ackIds == [] && begun.forwardedEmails == []
    && begun.consecutiveFailures == (if c.fetched.Some? then 0 else l.consecutiveFailures + 1)
    && begun.consecutiveAckFailures == l.consecutiveAckFailures
  }

  /** An iteration whose fetch failed posts and acknowledges nothing. */
  lemma FailedCycle(l: LoopState, t: Table, c: Script)
    requires c.fetched == None
    ensures Begun(l, c, LoopRun(l, CycleSteps(t, c))) && PostsOf(l, CycleSteps(t, c)) == []
  {
    CycleFailed(l, t, c);
  }

  lemma {:induction false} DeliverStepsDeliver(t: Table, batches: seq<Batch>)
    ensures Deliveries(DeliverSteps(t, batches))
  {
    if batches != [] {
      var last := batches[|batches| - 1];
      DeliverStepsDeliver(t, batches[..|batches| - 1]);
      BatchStepAt(t, last.body, last.deliveries);
    }
  }

  lemma {:induction false} DeliveriesKeepCounters(l: LoopState, steps: seq<Step>)
    requires Deliveries(steps)
    ensures LoopRun(l, steps).consecutiveFailures == l.consecutiveFailures
    ensures LoopRun(l, steps).consecutiveAckFailures == l.consecutiveAckFailures
  {
    if steps != [] { DeliveriesKeepCounters(l, steps[..|steps| - 1]); }
  }

  /** A whole iteration, from the state `begun` it starts with: it posts, in order, each delivery that
      is routed and not remembered when its turn comes; it asks to drop, in order, the ids of those
      that were remembered or accepted, with their emails beside them; and counts the ACK's end. */
  lemma CycleMeans(l: LoopState, t: Table, c: Script) returns (begun: LoopState)
    requires c.fetched.Some?
    ensures Begun(l, c, begun)
    ensures var steps, end := DeliverSteps(t, c.fetched.value), LoopRun(l, CycleSteps(t, c));
            && Deliveries(steps)
            && Keeps(PostsOf(l, CycleSteps(t, c)), steps, PostFlags(begun, steps), PostFits)
            && Keeps(end.ackIds, steps, AckFlags(begun, steps), IdFits)
            && Keeps(end.forwardedEmails, steps, AckFlags(begun, steps), EmailFits)
            && end.consecutiveFailures == 0
            && end.consecutiveAckFailures
               == (if end.ackIds == [] then l.consecutiveAckFailures
                   else if c.ack.AckConfirmed? then 0 else l.consecutiveAckFailures + 1)
  {
    begun := LoopStep(LoopStep(l, Begin(c.at, c.upTo)), Fetched(true));
    var steps := DeliverSteps(t, c.fetched.value);
    CycleSucceeded(l, t, c);
    DeliverStepsDeliver(t, c.fetched.value);
    PostsKept(begun, steps);
    AcksKept(begun, steps);
    DeliveriesKeepCounters(begun, steps);
    hide LoopRun, PostsOf, Keeps, DeliverSteps, CycleSteps, Deliveries;
  }

  // ---------- how long the loop waits ----------

  /** The wait after failed fetches in a row doubles with each of the first six, and never exceeds five
      minutes. */
  lemma BackoffMeans(pollInterval: nat, failures: nat)
    ensures Backoff(pollInterval, 0) == if pollInterval < 300 then pollInterval else 300
    ensures failures < 6 ==> Backoff(pollInterval, failures + 1)
                             == var w := 2 * Backoff(pollInterval, failures); if w < 300 then w else 300
    ensures failures >= 6 ==> Backoff(pollInterval, failures) == Backoff(pollInterval, 6)
  {
    var p := Pow2(Min(failures, 6));
    assert failures < 6 ==> Pow2(failures + 1) == 2 * p;
    hide Pow2;
    assert pollInterval * (2 * p) == 2 * (pollInterval * p);
  }
}
