/** The pull protocol as a step system: one pull loop and the relay it polls. Times are readings of
    the monotone clock in nanoseconds; agents and the network may do anything at every step. */
module Pull {
  import opened Options
  import opened Streak

  const SEEN_TTL: nat := 7_200_000_000_000

  /** `Instant::elapsed`, which saturates at zero. */
  function Elapsed(now: nat, t: nat): nat {
    if now >= t then now - t else 0
  }

  /** How a POST to an agent ended. */
  datatype Reply = Success | NonSuccess | SendError

  /** How an ACK request ended: the relay may have acted on it although its reply was lost. */
  datatype AckOutcome = AckLost | AckReplyLost | AckConfirmed

  datatype Step =
    | Begin(at: int -> nat, upTo: nat)  // a new cycle: entry `id` of the cache is aged at time `at(id)`
    | Fetched(ok: bool)
    | Deliver(id: int, email: string, target: Option<string>, body: string, checkAt: nat, reply: Reply, doneAt: nat)
    | Acknowledge(outcome: AckOutcome)
    | Arrive(newId: int)                // the relay accepts a message
    | Expire(oldId: int)                // the relay's own cleanup drops one

  datatype Post = Post(id: int, email: string, target: string, body: string, checkAt: nat, reply: Reply, doneAt: nat)

  // ---------- the loop ----------

  datatype LoopState = LoopState(
    seen: map<int, nat>,
    ackIds: seq<int>,
    forwardedEmails: seq<string>,
    consecutiveFailures: nat,
    consecutiveAckFailures: nat)

  const START := LoopState(map[], [], [], 0, 0)

  predicate CacheSkips(seen: map<int, nat>, id: int, now: nat) {
    id in seen && Elapsed(now, seen[id]) < SEEN_TTL
  }

  /** The POST a step causes: none when the delivery is skipped or has no route. */
  function Posted(l: LoopState, s: Step): Option<Post> {
    if s.Deliver? && !CacheSkips(l.seen, s.id, s.checkAt) && s.target.Some?
    then Some(Post(s.id, s.email, s.target.value, s.body, s.checkAt, s.reply, s.doneAt))
    else None
  }

  function Listed(l: LoopState, id: int, email: string): LoopState {
    l.(ackIds := l.ackIds + [id], forwardedEmails := l.forwardedEmails + [email])
  }

  function LoopStep(l: LoopState, s: Step): LoopState {
    match s
    case Begin(at, _) =>
      l.(seen := map id | id in l.seen && Elapsed(at(id), l.seen[id]) < SEEN_TTL :: l.seen[id],
         ackIds := [], forwardedEmails := [])
    case Fetched(ok) => l.(consecutiveFailures := if ok then 0 else l.consecutiveFailures + 1)
    case Deliver(id, email, target, _, checkAt, reply, doneAt) =>
      if CacheSkips(l.seen, id, checkAt) then Listed(l, id, email)
      else if target.Some? && reply.Success? then Listed(l.(seen := l.seen[id := doneAt]), id, email)
      else l
    case Acknowledge(outcome) =>
      if l.ackIds == [] then l
      else l.(consecutiveAckFailures := if outcome.AckConfirmed? then 0 else l.consecutiveAckFailures + 1)
    case _ => l
  }

  function LoopRun(l: LoopState, steps: seq<Step>): LoopState {
    if steps == [] then l
    else LoopStep(LoopRun(l, steps[..|steps| - 1]), steps[|steps| - 1])
  }

  /** The POSTs of a run, in order. */
  function PostsOf(l: LoopState, steps: seq<Step>): seq<Post> {
    if steps == [] then []
    else
      var before := steps[..|steps| - 1];
      match Posted(LoopRun(l, before), steps[|steps| - 1])
      case Some(p) => PostsOf(l, before) + [p]
      case None => PostsOf(l, before)
  }

  /** The fetch results of a run, oldest first. */
  function FetchResults(steps: seq<Step>): seq<bool> {
    if steps == [] then []
    else
      FetchResults(steps[..|steps| - 1])
      + (if steps[|steps| - 1].Fetched? then [steps[|steps| - 1].ok] else [])
  }

  /** The results of the ACK requests that were sent: none is sent for an empty list. */
  function AckResults(l: LoopState, steps: seq<Step>): seq<bool> {
    if steps == [] then []
    else
      var before, last := steps[..|steps| - 1], steps[|steps| - 1];
      AckResults(l, before)
      + (if last.Acknowledge? && LoopRun(l, before).ackIds != [] then [last.outcome.AckConfirmed?] else [])
  }

  /** Each counter is the number of failures in a row that its kind of request ends the run with. */
  lemma {:induction false} CountersAreStreaks(steps: seq<Step>)
    ensures LoopRun(START, steps).consecutiveFailures == Trailing(FetchResults(steps))
    ensures LoopRun(START, steps).consecutiveAckFailures == Trailing(AckResults(START, steps))
  {
    if steps != [] {
      var before, last := steps[..|steps| - 1], steps[|steps| - 1];
      CountersAreStreaks(before);
      assert FetchResults(before) + [] == FetchResults(before);
      assert AckResults(START, before) + [] == AckResults(START, before);
      if last.Fetched? { TrailingSnoc(FetchResults(before), last.ok); }
      if last.Acknowledge? { TrailingSnoc(AckResults(START, before), last.outcome.AckConfirmed?); }
    }
  }

  // ---------- the loop with its relay ----------

  datatype Relay = Relay(pending: set<int>, acked: set<int>, expired: set<int>, arrived: set<int>)

  /** The loop, the relay, the POSTs answered 2xx so far, and the latest clock reading. */
  datatype World = World(loop: LoopState, relay: Relay, forwards: seq<Post>, clock: nat)

  function Init(clock: nat): World {
    World(START, Relay({}, {}, {}, {}), [], clock)
  }

  function IdSet(ids: seq<int>): set<int> {
    set id | id in ids
  }

  function RelayStep(r: Relay, ackIds: seq<int>, s: Step): Relay {
    match s
    case Arrive(id) => r.(pending := r.pending + {id}, arrived := r.arrived + {id})
    case Expire(id) => if id in r.pending then r.(pending := r.pending - {id}, expired := r.expired + {id}) else r
    case Acknowledge(outcome) =>
      if outcome.AckLost? then r
      else r.(pending := r.pending - IdSet(ackIds), acked := r.acked + r.pending * IdSet(ackIds))
    case _ => r
  }

  function Forwarded(l: LoopState, s: Step): seq<Post> {
    match Posted(l, s)
    case Some(p) => if p.reply.Success? then [p] else []
    case None => []
  }

  function ClockAfter(clock: nat, s: Step): nat {
    match s
    case Begin(_, upTo) => upTo
    case Deliver(_, _, _, _, _, _, doneAt) => doneAt
    case _ => clock
  }

  function WorldStep(w: World, s: Step): World {
    World(LoopStep(w.loop, s), RelayStep(w.relay, w.loop.ackIds, s),
          w.forwards + Forwarded(w.loop, s), ClockAfter(w.clock, s))
  }

  function Run(w: World, steps: seq<Step>): World {
    if steps == [] then w
    else WorldStep(Run(w, steps[..|steps| - 1]), steps[|steps| - 1])
  }

  /** The clock never runs backwards. */
  ghost predicate StepTimed(clock: nat, s: Step) {
    match s
    case Begin(at, upTo) => clock <= upTo && forall id :: clock <= at(id) <= upTo
    case Deliver(_, _, _, _, checkAt, _, doneAt) => clock <= checkAt <= doneAt
    case _ => true
  }

  ghost predicate Timed(w: World, steps: seq<Step>) {
    steps == [] ||
    (Timed(w, steps[..|steps| - 1]) && StepTimed(Run(w, steps[..|steps| - 1]).clock, steps[|steps| - 1]))
  }

  lemma RunSplits(w: World, a: seq<Step>, b: seq<Step>)
    ensures Run(w, a + b) == Run(Run(w, a), b)
  {
    if b == [] {
      assert a + b == a;
    } else {
      assert (a + b)[..|a + b| - 1] == a + b[..|b| - 1];
      RunSplits(w, a, b[..|b| - 1]);
    }
  }

  function Successes(posts: seq<Post>): seq<Post> {
    if posts == [] then []
    else Successes(posts[..|posts| - 1])
         + (if posts[|posts| - 1].reply.Success? then [posts[|posts| - 1]] else [])
  }

  /** The world's loop is the loop, and its forwards are the 2xx-answered POSTs that the loop makes. */
  lemma WorldFollowsLoop(w: World, steps: seq<Step>)
    ensures Run(w, steps).loop == LoopRun(w.loop, steps)
    ensures Run(w, steps).forwards == w.forwards + Successes(PostsOf(w.loop, steps))
  {
    if steps != [] {
      var before := steps[..|steps| - 1];
      WorldFollowsLoop(w, before);
      match Posted(LoopRun(w.loop, before), steps[|steps| - 1])
      case None =>
      case Some(p) =>
        assert (PostsOf(w.loop, before) + [p])[..|PostsOf(w.loop, before)|] == PostsOf(w.loop, before);
    }
  }

  // ---------- what every step keeps ----------

  predicate InLog(forwards: seq<Post>, id: int) {
    exists i :: 0 <= i < |forwards| && forwards[i].id == id
  }

  predicate LoggedAt(forwards: seq<Post>, id: int, at: nat) {
    exists i :: 0 <= i < |forwards| && forwards[i].id == id && forwards[i].doneAt == at
  }

  /** The forwards are successes in time order, and two of one id are a cache lifetime apart. */
  ghost predicate LogOrdered(forwards: seq<Post>, clock: nat) {
    && (forall i :: 0 <= i < |forwards| ==>
          forwards[i].reply.Success? && forwards[i].checkAt <= forwards[i].doneAt <= clock)
    && (forall i, j :: 0 <= i < j < |forwards| ==> forwards[i].doneAt <= forwards[j].checkAt)
    && forall i, j :: 0 <= i < j < |forwards| && forwards[i].id == forwards[j].id ==>
         forwards[j].checkAt - forwards[i].doneAt >= SEEN_TTL
  }

  /** The cache holds times of logged forwards, and has dropped or replaced only stale ones. */
  ghost predicate CacheSound(w: World) {
    && (forall id :: id in w.loop.seen ==> LoggedAt(w.forwards, id, w.loop.seen[id]))
    && forall i :: 0 <= i < |w.forwards| ==>
         || (w.forwards[i].id in w.loop.seen && w.forwards[i].doneAt <= w.loop.seen[w.forwards[i].id])
         || w.clock - w.forwards[i].doneAt >= SEEN_TTL
  }

  /** Only forwarded ids are acknowledged, and no message leaves the relay unaccounted for. */
  ghost predicate NothingLost(w: World) {
    && (forall id :: id in w.loop.ackIds ==> InLog(w.forwards, id))
    && (forall id :: id in w.relay.acked ==> InLog(w.forwards, id))
    && w.relay.arrived == w.relay.pending + w.relay.acked + w.relay.expired
  }

  ghost predicate Inv(w: World) {
    LogOrdered(w.forwards, w.clock) && CacheSound(w) && NothingLost(w)
  }

  /** A loop that kept every success forever would skip when one is younger than the lifetime. */
  predicate HistorySkips(forwards: seq<Post>, id: int, now: nat) {
    exists i :: 0 <= i < |forwards| && forwards[i].id == id && Elapsed(now, forwards[i].doneAt) < 7_200_000_000_000
  }

  /** The evicting cache decides as the full history does. */
  lemma SkipsAgree(w: World, id: int, now: nat)
    requires Inv(w) && w.clock <= now
    ensures CacheSkips(w.loop.seen, id, now) <==> HistorySkips(w.forwards, id, now)
  {
    if CacheSkips(w.loop.seen, id, now) {
      var i :| 0 <= i < |w.forwards| && w.forwards[i].id == id && w.forwards[i].doneAt == w.loop.seen[id];
    }
    if HistorySkips(w.forwards, id, now) {
      var i :| 0 <= i < |w.forwards| && w.forwards[i].id == id && Elapsed(now, w.forwards[i].doneAt) < SEEN_TTL;
      assert id in w.loop.seen && w.forwards[i].doneAt <= w.loop.seen[id];
      var j :| 0 <= j < |w.forwards| && w.forwards[j].id == id && w.forwards[j].doneAt == w.loop.seen[id];
      assert w.forwards[j].doneAt <= w.clock;
    }
  }

  lemma DeliverKeepsLog(w: World, s: Step)
    requires Inv(w) && s.Deliver? && StepTimed(w.clock, s)
    ensures LogOrdered(WorldStep(w, s).forwards, s.doneAt)
  {
    SkipsAgree(w, s.id, s.checkAt);
  }

  lemma DeliverKeepsCache(w: World, s: Step)
    requires Inv(w) && s.Deliver? && StepTimed(w.clock, s)
    ensures CacheSound(WorldStep(w, s))
  {
    var w' := WorldStep(w, s);
    DeliverKeepsEntries(w, s);
    if w'.forwards != w.forwards {
      assert w'.forwards[|w.forwards|].doneAt == w'.clock == w'.loop.seen[s.id];
      forall i | 0 <= i < |w.forwards| ensures w'.forwards[i] == w.forwards[i] {}
    }
  }

  lemma DeliverKeepsEntries(w: World, s: Step)
    requires Inv(w) && s.Deliver? && StepTimed(w.clock, s)
    ensures var w' := WorldStep(w, s); forall id :: id in w'.loop.seen ==> LoggedAt(w'.forwards, id, w'.loop.seen[id])
  {
    var w' := WorldStep(w, s);
    forall id | id in w'.loop.seen ensures LoggedAt(w'.forwards, id, w'.loop.seen[id]) {
      if id in w.loop.seen && w'.loop.seen[id] == w.loop.seen[id] {
        var i :| 0 <= i < |w.forwards| && w.forwards[i].id == id && w.forwards[i].doneAt == w.loop.seen[id];
        assert w'.forwards[i] == w.forwards[i];
      } else {
        assert w'.forwards[|w.forwards|].id == id;
      }
    }
  }

  lemma LogGrows(w: World, s: Step, id: int)
    requires InLog(w.forwards, id)
    ensures InLog(WorldStep(w, s).forwards, id)
  {
    var i :| 0 <= i < |w.forwards| && w.forwards[i].id == id;
    assert WorldStep(w, s).forwards[i].id == id;
  }

  lemma StepLosesNothing(w: World, s: Step)
    requires Inv(w) && StepTimed(w.clock, s)
    ensures NothingLost(WorldStep(w, s))
  {
    var w' := WorldStep(w, s);
    forall id | InLog(w.forwards, id) ensures InLog(w'.forwards, id) { LogGrows(w, s, id); }
    if s.Deliver? && w'.loop.ackIds != w.loop.ackIds {
      SkipsAgree(w, s.id, s.checkAt);
      if CacheSkips(w.loop.seen, s.id, s.checkAt) {
        assert InLog(w.forwards, s.id);
      } else {
        assert w'.forwards[|w.forwards|].id == s.id;
      }
    }
  }

  lemma StepKeepsInv(w: World, s: Step)
    requires Inv(w) && StepTimed(w.clock, s)
    ensures Inv(WorldStep(w, s))
  {
    StepLosesNothing(w, s);
    if s.Deliver? {
      DeliverKeepsLog(w, s);
      DeliverKeepsCache(w, s);
    } else {
      assert WorldStep(w, s).forwards == w.forwards;
    }
  }

  lemma RunKeepsInv(w: World, steps: seq<Step>)
    requires Inv(w) && Timed(w, steps)
    ensures Inv(Run(w, steps))
  {
    if steps != [] {
      RunKeepsInv(w, steps[..|steps| - 1]);
      StepKeepsInv(Run(w, steps[..|steps| - 1]), steps[|steps| - 1]);
    }
  }

  // ---------- safety over whole runs ----------

  /** No loss: whatever is lost on the way, each message the relay accepted and did not expire by
      itself is still pending or was forwarded with a 2xx; every id dropped on an ACK was. */
  lemma ZeroLoss(clock: nat, steps: seq<Step>, id: int)
    requires Timed(Init(clock), steps)
    ensures var w := Run(Init(clock), steps);
            && (id in w.relay.acked ==> InLog(w.forwards, id))
            && (id in w.relay.arrived && id !in w.relay.expired ==> id in w.relay.pending || InLog(w.forwards, id))
  {
    RunKeepsInv(Init(clock), steps);
  }

  /** Any two forwards of one id are at least the cache lifetime apart, whatever the relay does. */
  lemma ForwardsAreSpaced(clock: nat, steps: seq<Step>, i: nat, j: nat)
    requires Timed(Init(clock), steps)
    ensures var f := Run(Init(clock), steps).forwards;
            i < j < |f| && f[i].id == f[j].id ==> f[j].checkAt - f[i].doneAt >= 7_200_000_000_000
  {
    RunKeepsInv(Init(clock), steps);
  }

  // ---------- the loop that never evicts ----------

  /** The reference loop: it keeps every success forever and asks whether one is young enough. */
  function HistoryStep(w: World, s: Step): World {
    match s
    case Begin(_, _) => World(w.loop.(ackIds := [], forwardedEmails := []), w.relay, w.forwards, ClockAfter(w.clock, s))
    case Deliver(id, email, target, body, checkAt, reply, doneAt) =>
      if HistorySkips(w.forwards, id, checkAt) then w.(loop := Listed(w.loop, id, email), clock := doneAt)
      else if target.Some? && reply.Success? then
        World(Listed(w.loop, id, email), w.relay,
              w.forwards + [Post(id, email, target.value, body, checkAt, reply, doneAt)], doneAt)
      else w.(clock := doneAt)
    case _ => WorldStep(w, s)
  }

  function HistoryRun(w: World, steps: seq<Step>): World {
    if steps == [] then w
    else HistoryStep(HistoryRun(w, steps[..|steps| - 1]), steps[|steps| - 1])
  }

  /** Equal but for the cache, which the reference loop does not have. */
  predicate SameButCache(a: World, b: World) {
    && a.loop.(seen := map[]) == b.loop.(seen := map[])
    && a.relay == b.relay && a.forwards == b.forwards && a.clock == b.clock
  }

  lemma StepStaysSame(a: World, b: World, s: Step)
    requires SameButCache(a, b)
    requires s.Deliver? ==> (CacheSkips(a.loop.seen, s.id, s.checkAt) <==> HistorySkips(b.forwards, s.id, s.checkAt))
    ensures SameButCache(WorldStep(a, s), HistoryStep(b, s))
  {
  }

  /** On every delivery of every run the evicting loop forwards, skips and acknowledges as the loop
      that keeps its full history. */
  lemma EvictionIsInvisible(w: World, steps: seq<Step>)
    requires Inv(w) && Timed(w, steps)
    ensures SameButCache(Run(w, steps), HistoryRun(w, steps))
  {
    if steps != [] {
      var before := steps[..|steps| - 1];
      var s := steps[|steps| - 1];
      EvictionIsInvisible(w, before);
      RunKeepsInv(w, before);
      if s.Deliver? { SkipsAgree(Run(w, before), s.id, s.checkAt); }
      StepStaysSame(Run(w, before), HistoryRun(w, before), s);
    }
  }

  // ---------- how often an id is forwarded ----------

  function Count(forwards: seq<Post>, id: int): nat {
    if forwards == [] then 0
    else Count(forwards[..|forwards| - 1], id) + (if forwards[|forwards| - 1].id == id then 1 else 0)
  }

  lemma CountZero(forwards: seq<Post>, id: int)
    ensures Count(forwards, id) == 0 <==> !InLog(forwards, id)
  {
    if forwards != [] {
      var front := forwards[..|forwards| - 1];
      CountZero(front, id);
      if InLog(front, id) {
        var i :| 0 <= i < |front| && front[i].id == id;
        assert forwards[i].id == id;
      }
      if forwards[|forwards| - 1].id != id && InLog(forwards, id) {
        var i :| 0 <= i < |forwards| && forwards[i].id == id;
        assert front[i].id == id;
      }
    }
  }

  lemma CountOne(forwards: seq<Post>, id: int, i: nat, j: nat)
    requires i < j < |forwards| && forwards[i].id == id && forwards[j].id == id
    ensures Count(forwards, id) >= 2
  {
    var front := forwards[..|forwards| - 1];
    if j < |front| { CountOne(front, id, i, j); }
    else {
      assert front[i].id == id;
      CountZero(front, id);
    }
  }

  /** A delivery of `id` that has a route and whose agent answers 2xx when asked. */
  predicate WouldSucceed(s: Step, id: int) {
    s.Deliver? && s.id == id && s.target.Some? && s.reply.Success?
  }

  function FirstSuccess(steps: seq<Step>, id: int): (r: Option<nat>)
    ensures r.Some? ==> r.value < |steps| && WouldSucceed(steps[r.value], id)
                        && forall j :: 0 <= j < r.value ==> !WouldSucceed(steps[j], id)
    ensures r.None? ==> forall j :: 0 <= j < |steps| ==> !WouldSucceed(steps[j], id)
  {
    if steps == [] then None
    else
      var before := steps[..|steps| - 1];
      match FirstSuccess(before, id)
      case Some(i) => Some(i)
      case None => if WouldSucceed(steps[|steps| - 1], id) then Some(|steps| - 1) else None
  }

  /** Every later successful processing of `id` starts within the cache lifetime of its first. */
  predicate RepeatsOnTime(steps: seq<Step>, id: int) {
    match FirstSuccess(steps, id)
    case None => true
    case Some(first) =>
      forall j :: first < j < |steps| && WouldSucceed(steps[j], id) ==>
        Elapsed(steps[j].checkAt, steps[first].doneAt) < 7_200_000_000_000
  }

  /** What the log knows of `id` after a run: nothing, exactly its first success, or a repeat. */
  ghost predicate LogMatches(steps: seq<Step>, forwards: seq<Post>, id: int) {
    match FirstSuccess(steps, id)
    case None => Count(forwards, id) == 0
    case Some(first) =>
      ForwardedAt(forwards, id, steps[first].doneAt) && (Count(forwards, id) == 1 <==> RepeatsOnTime(steps, id))
  }

  predicate ForwardedAt(forwards: seq<Post>, id: int, time: nat) {
    exists i :: 0 <= i < |forwards| && forwards[i].id == id && forwards[i].doneAt == time
  }

  lemma ForwardedAtSnoc(forwards: seq<Post>, p: Post, id: int, time: nat)
    requires ForwardedAt(forwards, id, time)
    ensures ForwardedAt(forwards + [p], id, time)
  {
    var i :| 0 <= i < |forwards| && forwards[i].id == id && forwards[i].doneAt == time;
    assert (forwards + [p])[i] == forwards[i];
  }

  lemma RepeatsSnoc(steps: seq<Step>, id: int)
    requires steps != [] && FirstSuccess(steps[..|steps| - 1], id).Some?
    ensures var first := FirstSuccess(steps[..|steps| - 1], id).value;
            var s := steps[|steps| - 1];
            RepeatsOnTime(steps, id)
            == (RepeatsOnTime(steps[..|steps| - 1], id)
                && (WouldSucceed(s, id) ==> Elapsed(s.checkAt, steps[first].doneAt) < 7_200_000_000_000))
  {
    var before := steps[..|steps| - 1];
    var first := FirstSuccess(before, id).value;
    assert FirstSuccess(steps, id) == Some(first);
    forall j | first < j < |before| ensures before[j] == steps[j] {}
  }

  lemma CountSnoc(forwards: seq<Post>, p: Post, id: int)
    ensures Count(forwards + [p], id) == Count(forwards, id) + (if p.id == id then 1 else 0)
  {
    assert (forwards + [p])[..|forwards|] == forwards;
  }

  /** With one forward of the id on record, the history decides by that one's time. */
  lemma HistoryOfOne(forwards: seq<Post>, id: int, time: nat, now: nat)
    requires ForwardedAt(forwards, id, time) && Count(forwards, id) == 1
    ensures HistorySkips(forwards, id, now) <==> Elapsed(now, time) < SEEN_TTL
  {
    var i :| 0 <= i < |forwards| && forwards[i].id == id && forwards[i].doneAt == time;
    if HistorySkips(forwards, id, now) {
      var k :| 0 <= k < |forwards| && forwards[k].id == id && Elapsed(now, forwards[k].doneAt) < SEEN_TTL;
      if k < i { CountOne(forwards, id, k, i); }
      if i < k { CountOne(forwards, id, i, k); }
    }
  }

  /** A success step adds one forward unless the history skips it. */
  lemma SuccessStep(w: World, s: Step, id: int)
    requires Inv(w) && WouldSucceed(s, id) && StepTimed(w.clock, s)
    ensures var p := Post(id, s.email, s.target.value, s.body, s.checkAt, s.reply, s.doneAt);
            WorldStep(w, s).forwards == if HistorySkips(w.forwards, id, s.checkAt) then w.forwards else w.forwards + [p]
  {
    SkipsAgree(w, id, s.checkAt);
    assert w.forwards + [] == w.forwards;
  }

  lemma FirstSuccessStep(w: World, s: Step, id: int)
    requires Inv(w) && WouldSucceed(s, id) && StepTimed(w.clock, s) && Count(w.forwards, id) == 0
    ensures Count(WorldStep(w, s).forwards, id) == 1 && ForwardedAt(WorldStep(w, s).forwards, id, s.doneAt)
  {
    CountZero(w.forwards, id);
    NoneToSkip(w.forwards, id, s.checkAt);
    SuccessStep(w, s, id);
    var p := Post(id, s.email, s.target.value, s.body, s.checkAt, s.reply, s.doneAt);
    CountSnoc(w.forwards, p, id);
    assert (w.forwards + [p])[|w.forwards|] == p;
  }

  lemma NoneToSkip(forwards: seq<Post>, id: int, now: nat)
    requires !InLog(forwards, id)
    ensures !HistorySkips(forwards, id, now)
  {
  }

  lemma FirstSuccessMatches(clock: nat, steps: seq<Step>, id: int)
    requires Timed(Init(clock), steps) && steps != [] && WouldSucceed(steps[|steps| - 1], id)
    requires FirstSuccess(steps[..|steps| - 1], id) == None
    requires LogMatches(steps[..|steps| - 1], Run(Init(clock), steps[..|steps| - 1]).forwards, id)
    ensures LogMatches(steps, Run(Init(clock), steps).forwards, id)
  {
    var before := steps[..|steps| - 1];
    RunKeepsInv(Init(clock), before);
    FirstSuccessStep(Run(Init(clock), before), steps[|steps| - 1], id);
    assert FirstSuccess(steps, id) == Some(|steps| - 1);
  }

  /** A success step after the first leaves one forward exactly when there was one and it skips. */
  lemma LaterSuccessStep(w: World, s: Step, id: int, time: nat)
    requires Inv(w) && WouldSucceed(s, id) && StepTimed(w.clock, s) && ForwardedAt(w.forwards, id, time)
    ensures var forwards := WorldStep(w, s).forwards;
            && ForwardedAt(forwards, id, time)
            && (Count(forwards, id) == 1 <==> Count(w.forwards, id) == 1 && Elapsed(s.checkAt, time) < SEEN_TTL)
  {
    SuccessStep(w, s, id);
    var p := Post(id, s.email, s.target.value, s.body, s.checkAt, s.reply, s.doneAt);
    CountSnoc(w.forwards, p, id);
    ForwardedAtSnoc(w.forwards, p, id, time);
    assert InLog(w.forwards, id);
    CountZero(w.forwards, id);
    if Count(w.forwards, id) == 1 { HistoryOfOne(w.forwards, id, time, s.checkAt); }
  }

  lemma LaterSuccessMatches(clock: nat, steps: seq<Step>, id: int)
    requires Timed(Init(clock), steps) && steps != [] && WouldSucceed(steps[|steps| - 1], id)
    requires FirstSuccess(steps[..|steps| - 1], id).Some?
    requires LogMatches(steps[..|steps| - 1], Run(Init(clock), steps[..|steps| - 1]).forwards, id)
    ensures LogMatches(steps, Run(Init(clock), steps).forwards, id)
  {
    var before, s := steps[..|steps| - 1], steps[|steps| - 1];
    var first := FirstSuccess(before, id).value;
    RunKeepsInv(Init(clock), before);
    RepeatsSnoc(steps, id);
    LaterSuccessStep(Run(Init(clock), before), s, id, before[first].doneAt);
  }

  lemma OtherStepMatches(clock: nat, steps: seq<Step>, id: int)
    requires steps != [] && !WouldSucceed(steps[|steps| - 1], id)
    requires LogMatches(steps[..|steps| - 1], Run(Init(clock), steps[..|steps| - 1]).forwards, id)
    ensures LogMatches(steps, Run(Init(clock), steps).forwards, id)
  {
    var before, s := steps[..|steps| - 1], steps[|steps| - 1];
    var w, w' := Run(Init(clock), before), Run(Init(clock), steps);
    if FirstSuccess(before, id).Some? { RepeatsSnoc(steps, id); }
    if w'.forwards != w.forwards {
      var p := Posted(w.loop, s).value;
      CountSnoc(w.forwards, p, id);
      if FirstSuccess(before, id).Some? {
        ForwardedAtSnoc(w.forwards, p, id, before[FirstSuccess(before, id).value].doneAt);
      }
    }
  }

  lemma ForwardsMatch(clock: nat, steps: seq<Step>, id: int)
    requires Timed(Init(clock), steps)
    ensures LogMatches(steps, Run(Init(clock), steps).forwards, id)
  {
    if steps != [] {
      var before, s := steps[..|steps| - 1], steps[|steps| - 1];
      ForwardsMatch(clock, before, id);
      if !WouldSucceed(s, id) { OtherStepMatches(clock, steps, id); }
      else if FirstSuccess(before, id) == None { FirstSuccessMatches(clock, steps, id); }
      else { LaterSuccessMatches(clock, steps, id); }
    }
  }

  /** No duplicates, exactly when: an id is forwarded at most once in a run if and only if each of
      its later processings that an agent would accept starts within 7200 s of its first success. */
  lemma ForwardedOnceIff(clock: nat, steps: seq<Step>, id: int)
    requires Timed(Init(clock), steps)
    ensures Count(Run(Init(clock), steps).forwards, id) <= 1 <==> RepeatsOnTime(steps, id)
    ensures Count(Run(Init(clock), steps).forwards, id) >= 1 <==> FirstSuccess(steps, id).Some?
  {
    ForwardsMatch(clock, steps, id);
    CountZero(Run(Init(clock), steps).forwards, id);
  }

  lemma TimedSnoc(w: World, steps: seq<Step>, s: Step)
    requires Timed(w, steps) && StepTimed(Run(w, steps).clock, s)
    ensures Timed(w, steps + [s]) && Run(w, steps + [s]) == WorldStep(Run(w, steps), s)
  {
    assert (steps + [s])[..|steps|] == steps;
  }

  /** The README's "zero duplicates" is not unconditional: when the ACK of a forwarded message is
      lost and the relay offers it again after the lifetime, it is forwarded again. */
  lemma DuplicateAfterLifetime(id: int, email: string, target: string, body: string)
    ensures var steps := [Deliver(id, email, Some(target), body, 0, Success, 0), Acknowledge(AckLost),
                          Begin(_ => SEEN_TTL, SEEN_TTL),
                          Deliver(id, email, Some(target), body, SEEN_TTL, Success, SEEN_TTL)];
            Timed(Init(0), steps) && Count(Run(Init(0), steps).forwards, id) >= 2
  {
    var first := Deliver(id, email, Some(target), body, 0, Success, 0);
    var again := Deliver(id, email, Some(target), body, SEEN_TTL, Success, SEEN_TTL);
    var begin := Begin(_ => SEEN_TTL, SEEN_TTL);
    var lost := Acknowledge(AckLost);
    TimedSnoc(Init(0), [], first);
    TimedSnoc(Init(0), [] + [first], lost);
    TimedSnoc(Init(0), [] + [first] + [lost], begin);
    TimedSnoc(Init(0), [] + [first] + [lost] + [begin], again);
    var steps := [first, lost, begin, again];
    assert [] + [first] + [lost] + [begin] + [again] == steps;
    assert WouldSucceed(steps[0], id) && WouldSucceed(steps[3], id);
    ForwardedOnceIff(0, steps, id);
  }
}
