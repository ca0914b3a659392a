/** Several pull loops, one per configured system, interleaved step by step over one shared route
    table. Each loop has its own cache, relay and clock; the table is shared with the admin API. */
module MultiSystem {
  import opened Options
  import opened RouteTable
  import opened Pull
  import opened PullCycle

  datatype Fleet = Fleet(loops: seq<World>, table: Table)

  datatype Event =
    | Act(loop: nat, step: Step)                           // any step of a loop but a delivery
    | Handle(loop: nat, body: string, attempt: Attempt)    // a delivery, looked up in the shared table
    | Administer(op: Operation)                            // an operation on the table by anyone else

  function FleetStep(f: Fleet, e: Event): Fleet {
    match e
    case Act(i, s) =>
      if i < |f.loops| && !s.Deliver? then f.(loops := f.loops[i := WorldStep(f.loops[i], s)]) else f
    case Handle(i, body, a) =>
      if i < |f.loops| then
        Fleet(f.loops[i := WorldStep(f.loops[i], StepOf(f.table, body, a))],
              if CacheSkips(f.loops[i].loop.seen, a.id, a.checkAt) then f.table else AfterLookup(f.table, a.email))
      else f
    case Administer(op) => f.(table := MemoStep(f.table, op))
  }

  /** A delivery handled by one loop is its own step, to where the shared table routes the email; it
      touches no other loop, and changes no answer of the table. */
  lemma HandleMeans(f: Fleet, i: nat, body: string, a: Attempt)
    requires i < |f.loops|
    ensures var after, r := FleetStep(f, Handle(i, body, a)), Answer(f.table, a.email);
            && |after.loops| == |f.loops|
            && after.loops[i] == WorldStep(f.loops[i],
                 Deliver(a.id, a.email, if r.Some? then Some(r.value.targetUrl) else None, body,
                         a.checkAt, a.reply, a.doneAt))
            && (forall k :: 0 <= k < |f.loops| && k != i ==> after.loops[k] == f.loops[k])
            && SameAnswers(after.table, f.table)
  {
    forall e ensures Answer(AfterLookup(f.table, a.email), e) == Answer(f.table, e) {
      LookupKeepsAnswers(f.table, a.email, e);
    }
  }

  function FleetRun(f: Fleet, events: seq<Event>): Fleet
    decreases |events|
  {
    if events == [] then f else FleetRun(FleetStep(f, events[0]), events[1..])
  }

  /** The steps loop `i` takes by itself, its deliveries routed by a plain table that only the
      table operations change. */
  function OwnSteps(p: Table, events: seq<Event>, i: nat): seq<Step>
    decreases |events|
  {
    if events == [] then []
    else match events[0]
      case Act(k, s) => (if k == i && !s.Deliver? then [s] else []) + OwnSteps(p, events[1..], i)
      case Handle(k, body, a) => (if k == i then [StepOf(p, body, a)] else []) + OwnSteps(p, events[1..], i)
      case Administer(op) => OwnSteps(Changed(p, op), events[1..], i)
  }

  predicate Concerns(e: Event, i: nat) {
    match e
    case Act(k, _) => k == i
    case Handle(k, _, _) => k == i
    case Administer(_) => true
  }

  /** The same events with every other loop standing still. */
  function OnlyFor(events: seq<Event>, i: nat): seq<Event> {
    if events == [] then []
    else (if Concerns(events[0], i) then [events[0]] else []) + OnlyFor(events[1..], i)
  }

  lemma RunFront(w: World, s: Step, steps: seq<Step>)
    ensures Run(w, [s] + steps) == Run(WorldStep(w, s), steps)
  {
    RunSplits(w, [s], steps);
    assert [s][..0] == [];
  }

  /** Whatever the interleaving, each loop runs its own steps: other loops' deliveries and the
      pattern hits they leave in the shared table change nothing for it. */
  lemma {:induction false} LoopRunsAlone(f: Fleet, p: Table, events: seq<Event>, i: nat)
    requires i < |f.loops| && Memoises(f.table, p)
    ensures |FleetRun(f, events).loops| == |f.loops|
    ensures FleetRun(f, events).loops[i] == Run(f.loops[i], OwnSteps(p, events, i))
    decreases |events|
  {
    if events != [] {
      var f' := FleetStep(f, events[0]);
      var rest := OwnSteps(p, events[1..], i);
      assert [] + rest == rest;
      match events[0] {
        case Act(k, s) =>
          LoopRunsAlone(f', p, events[1..], i);
          RunFront(f.loops[i], s, rest);
        case Handle(k, body, a) =>
          MemoAnswers(f.table, p, a.email);
          LookupMemoises(f.table, p, a.email);
          LoopRunsAlone(f', p, events[1..], i);
          RunFront(f.loops[i], StepOf(p, body, a), OwnSteps(p, events[1..], i));
        case Administer(op) =>
          StepMemoises(f.table, p, op);
          LoopRunsAlone(f', Changed(p, op), events[1..], i);
      }
    }
  }

  lemma {:induction false} OnlyForKeepsOwnSteps(p: Table, events: seq<Event>, i: nat)
    ensures OwnSteps(p, OnlyFor(events, i), i) == OwnSteps(p, events, i)
    decreases |events|
  {
    if events != [] {
      var p' := if events[0].Administer? then Changed(p, events[0].op) else p;
      OnlyForKeepsOwnSteps(p', events[1..], i);
      if Concerns(events[0], i) {
        assert OnlyFor(events, i)[1..] == OnlyFor(events[1..], i);
      } else {
        assert OnlyFor(events, i) == OnlyFor(events[1..], i);
      }
    }
  }

  /** Independence: a loop ends in the same state when all the other loops stand still. */
  lemma LoopsAreIndependent(f: Fleet, events: seq<Event>, i: nat)
    requires i < |f.loops|
    ensures |FleetRun(f, events).loops| == |FleetRun(f, OnlyFor(events, i)).loops| == |f.loops|
    ensures FleetRun(f, events).loops[i] == FleetRun(f, OnlyFor(events, i)).loops[i]
  {
    LoopRunsAlone(f, f.table, events, i);
    LoopRunsAlone(f, f.table, OnlyFor(events, i), i);
    OnlyForKeepsOwnSteps(f.table, events, i);
  }

  /** Each loop keeps its own delivery guarantees: nothing it acknowledged is lost, and an id is
      forwarded once exactly when its own repeats are on time, whoever else uses the same id. */
  lemma EachLoopKeepsItsGuarantees(f: Fleet, events: seq<Event>, i: nat, clock: nat, id: int)
    requires i < |f.loops| && f.loops[i] == Init(clock)
    requires Timed(Init(clock), OwnSteps(f.table, events, i))
    ensures |FleetRun(f, events).loops| == |f.loops|
    ensures var w := FleetRun(f, events).loops[i];
            && (id in w.relay.arrived && id !in w.relay.expired ==> id in w.relay.pending || InLog(w.forwards, id))
            && (id in w.relay.acked ==> InLog(w.forwards, id))
            && (Count(w.forwards, id) <= 1 <==> RepeatsOnTime(OwnSteps(f.table, events, i), id))
  {
    LoopRunsAlone(f, f.table, events, i);
    ZeroLoss(clock, OwnSteps(f.table, events, i), id);
    ForwardedOnceIff(clock, OwnSteps(f.table, events, i), id);
  }
}
