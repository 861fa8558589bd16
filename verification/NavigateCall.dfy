/** One whole Navigate call, as the program runs it, and the run of the machine it carries out. */
module NavigateCall {
  import opened Outcomes
  import opened Narration
  import opened NarrationTheory
  import opened Navigation
  import W = Walking
  import opened Sessions

  datatype CallEnd = Ended(failure: Option<Failure>) | Hanging

  /** What the machine says of a call that has ended so. */
  predicate EndsAs(p: Rpc, end: CallEnd) {
    match end
    case Ended(None) => p.phase.Done?
    case Ended(Some(why)) => p.phase == Failed(why)
    case Hanging => p.phase.Draining?
  }

  function Solo(walk: W.WalkState, cache: map<string, CachedStep>, p: Rpc, log: seq<nat>): System {
    System(walk, cache, [p], log)
  }

  function Locals(acts: seq<Action>): seq<Turn> {
    seq(|acts|, i requires 0 <= i < |acts| => Local(0, acts[i]))
  }

  lemma {:induction false} RunsConcat(g: GraphView, sys: System, a: seq<Turn>, b: seq<Turn>)
    decreases a
    ensures Runs(g, sys, a + b) == Runs(g, Runs(g, sys, a), b)
  {
    if a == [] {
      assert a + b == b;
    } else {
      assert (a + b)[1..] == a[1..] + b;
      RunsConcat(g, TakeTurn(g, sys, a[0]), a[1..], b);
    }
  }

  lemma OneTurn(g: GraphView, sys: System, e: Turn)
    ensures Runs(g, sys, [e]) == TakeTurn(g, sys, e)
  {
    assert [e][1..] == [];
  }

  lemma {:induction false} LocalsRun(g: GraphView, walk: W.WalkState, cache: map<string, CachedStep>, p: Rpc, log: seq<nat>, acts: seq<Action>)
    decreases acts
    ensures Runs(g, Solo(walk, cache, p, log), Locals(acts)) == Solo(walk, cache, Acts(p, acts), log)
  {
    if acts == [] {
    } else {
      var sys := Solo(walk, cache, p, log);
      assert Locals(acts)[0] == Local(0, acts[0]) && Locals(acts)[1..] == Locals(acts[1..]);
      assert TakeTurn(g, sys, Local(0, acts[0])) == Solo(walk, cache, Act(p, acts[0]), log);
      LocalsRun(g, walk, cache, Act(p, acts[0]), log, acts[1..]);
    }
  }

  lemma SectionTurn(g: GraphView, walk: W.WalkState, cache: map<string, CachedStep>, request: Request)
    ensures
      var (after, answer) := Serve(g, walk, request);
      Carries(g, Initial(walk, [request]).(cache := cache), [Section(0)], after, cache, Enter(NewRpc(request), answer))
  {
    hide Serve;
    var sys := Initial(walk, [request]).(cache := cache);
    assert sys == Solo(walk, cache, NewRpc(request), []);
    OneTurn(g, sys, Section(0));
  }

  lemma LookupTurn(g: GraphView, sys: System, walk: W.WalkState, cache: map<string, CachedStep>, request: Request, snap: Snapshot)
    requires Carries(g, sys, [Section(0)], walk, cache, Enter(NewRpc(request), Ok(snap)))
    ensures
      var p := Enter(NewRpc(request), Ok(snap));
      var cached := if snap.stepId in cache then Some(cache[snap.stepId]) else None;
      Carries(g, sys, [Section(0)] + [Lookup(0)], walk, cache, LookUp(p, cached))
  {
    RunsConcat(g, sys, [Section(0)], [Lookup(0)]);
    OneTurn(g, Solo(walk, cache, Enter(NewRpc(request), Ok(snap)), [0]), Lookup(0));
  }

  lemma WriteTurn(g: GraphView, walk: W.WalkState, cache: map<string, CachedStep>, p: Rpc, after: map<string, CachedStep>)
    requires p.phase.Drained? && p.snap.Some?
    requires after == cache[p.snap.value.stepId := CachedStep(p.received, p.summary)]
    ensures Carries(g, Solo(walk, cache, p, [0]), [Write(0)], walk, after, WriteCache(p))
  {
    OneTurn(g, Solo(walk, cache, p, [0]), Write(0));
  }

  /** The actions of a replay that stops after k events: by a cancellation, a failed send, or
      because everything is sent. */
  function Replays(k: nat): seq<Action> {
    if k == 0 then [] else Replays(k - 1) + [ReplaySend(true)]
  }

  lemma {:induction false} ReplaysRun(p: Rpc, k: nat)
    requires p.phase.Replaying? && p.phase.next == 0 && p.snap.Some? && p.sent == []
    requires k <= |ReplayTrace(p.snap.value, p.phase.entry)|
    ensures
      var trace := ReplayTrace(p.snap.value, p.phase.entry);
      Acts(p, Replays(k)) == p.(sent := trace[..k],
        phase := if k == |trace| then Done else Replaying(p.phase.entry, k))
  {
    hide ReplayTrace, Acts, Act;
    var trace := ReplayTrace(p.snap.value, p.phase.entry);
    TraceLonger(p.snap.value, p.phase.entry);
    if k == 0 {
      var none: seq<Action> := [];
      NoActs(p, none);
      assert none[..0] == Replays(0) && trace[..0] == [];
    } else {
      ReplaysRun(p, k - 1);
      ActsConcat(p, Replays(k - 1), [ReplaySend(true)]);
      OneAct(Acts(p, Replays(k - 1)), ReplaySend(true));
      ReplayOne(Acts(p, Replays(k - 1)));
      assert trace[..k] == trace[..k - 1] + [trace[k - 1]];
    }
  }

  lemma ReplayOne(p: Rpc)
    requires p.phase.Replaying? && p.snap.Some? && p.phase.next < |ReplayTrace(p.snap.value, p.phase.entry)|
    ensures
      var trace, next := ReplayTrace(p.snap.value, p.phase.entry), p.phase.next;
      Act(p, ReplaySend(true)) == p.(sent := p.sent + [trace[next]],
        phase := if next + 1 == |trace| then Done else Replaying(p.phase.entry, next + 1))
  {
    hide ReplayTrace;
  }

  /** The machine's schedule for what ReplayCached does. */
  function ReplayActions(entry: CachedStep, total: nat, cancelAt: nat, okSends: nat): seq<Action> {
    var stop := StopsAt(entry, total, cancelAt, okSends);
    if stop == total then Replays(stop)
    else Replays(stop) + [if cancelAt < |entry.tokens| && cancelAt <= okSends then ReplayCancel else ReplaySend(false)]
  }

  lemma ReplayActionsRun(p: Rpc, cancelAt: nat, okSends: nat)
    requires p.phase.Replaying? && p.phase.next == 0 && p.snap.Some? && p.sent == []
    ensures
      var trace := ReplayTrace(p.snap.value, p.phase.entry);
      var stop := StopsAt(p.phase.entry, |trace|, cancelAt, okSends);
      var q := Acts(p, ReplayActions(p.phase.entry, |trace|, cancelAt, okSends));
      && stop <= |trace| && q.sent == trace[..stop]
      && (stop == |trace| ==> q.phase.Done?)
      && (stop < |trace| ==>
            q.phase == Failed(if cancelAt < |p.phase.entry.tokens| && cancelAt <= okSends then Cancelled else SendFailed))
  {
    hide ReplayTrace, Acts, Act;
    var trace := ReplayTrace(p.snap.value, p.phase.entry);
    TraceLonger(p.snap.value, p.phase.entry);
    var stop := StopsAt(p.phase.entry, |trace|, cancelAt, okSends);
    ReplaysRun(p, stop);
    if stop < |trace| {
      var last := if cancelAt < |p.phase.entry.tokens| && cancelAt <= okSends then ReplayCancel else ReplaySend(false);
      ActsConcat(p, Replays(stop), [last]);
      OneAct(Acts(p, Replays(stop)), last);
      ReplayStops(Acts(p, Replays(stop)), last);
    }
  }

  lemma TraceLonger(snap: Snapshot, entry: CachedStep)
    ensures |entry.tokens| < |ReplayTrace(snap, entry)|
  {
    TokenEventsFacts(entry.tokens);
  }

  lemma ReplayStops(p: Rpc, last: Action)
    requires p.phase.Replaying? && p.snap.Some? && p.phase.next < |ReplayTrace(p.snap.value, p.phase.entry)|
    requires last == ReplaySend(false) || (last.ReplayCancel? && p.phase.next < |p.phase.entry.tokens|)
    ensures Act(p, last) == Fail(p, if last.ReplayCancel? then Cancelled else SendFailed)
  {
    hide ReplayTrace;
  }

  /** Schedule a runs the system from sys to one call in state p, with the walker and cache given. */
  ghost predicate Carries(g: GraphView, sys: System, a: seq<Turn>, walk: W.WalkState, cache: map<string, CachedStep>, p: Rpc) {
    Runs(g, sys, a) == Solo(walk, cache, p, [0])
  }

  lemma CarriesOn(g: GraphView, sys: System, a: seq<Turn>, walk: W.WalkState, cache: map<string, CachedStep>, p: Rpc,
                  b: seq<Turn>, cache': map<string, CachedStep>, q: Rpc)
    requires Carries(g, sys, a, walk, cache, p)
    requires Carries(g, Solo(walk, cache, p, [0]), b, walk, cache', q)
    ensures Carries(g, sys, a + b, walk, cache', q)
  {
    RunsConcat(g, sys, a, b);
  }

  lemma CarriesLocals(g: GraphView, sys: System, a: seq<Turn>, walk: W.WalkState, cache: map<string, CachedStep>, p: Rpc,
                      acts: seq<Action>)
    requires Carries(g, sys, a, walk, cache, p)
    ensures Carries(g, sys, a + Locals(acts), walk, cache, Acts(p, acts))
  {
    LocalsRun(g, walk, cache, p, [0], acts);
    CarriesOn(g, sys, a, walk, cache, p, Locals(acts), cache, Acts(p, acts));
  }

  /** A cache miss: the provider is called, the loop runs, the cache is written, Complete is sent. */
  method NarrateLive(s: Session, out: EventStream, request: Request, snap: Snapshot, narrate: Option<seq<string>>,
                     env: seq<Action>, completeOk: bool, ghost g: GraphView, ghost walk: W.WalkState)
    returns (end: CallEnd, ghost schedule: seq<Turn>, ghost p: Rpc)
    requires out.sent == []
    modifies s`narrationCache, out
    ensures Carries(g, Solo(walk, old(s.narrationCache), Started(request, snap), [0]), schedule, walk, s.narrationCache, p)
    ensures p.sent == out.sent && EndsAs(p, end)
  {
    hide Runs, Acts, Act, LookUp, Locals, Carries, Solo, EntryOf, CompleteOf, Started;
    ghost var cache0 := s.narrationCache;
    ghost var started := Started(request, snap);
    ghost var sys := Solo(walk, cache0, started, [0]);
    NothingYet(g, walk, cache0, started);
    if narrate.None? {
      StartFails(request, snap);
      CarriesLocals(g, sys, [], walk, cache0, started, [NarrateFails]);
      return Ended(Some(NarrationFailed)), [] + Locals([NarrateFails]), Fail(started, NarrationFailed);
    }
    var tokens, result, loopEnd;
    ghost var used;
    tokens, result, loopEnd, p, used := SelectLoop(out, request, snap, narrate.value, env);
    ghost var acts := [NarrateOk(narrate.value)] + env[..used];
    LoopActs(started, narrate.value, env[..used]);
    CarriesLocals(g, sys, [], walk, cache0, started, acts);
    schedule := [] + Locals(acts);
    match loopEnd {
      case Returned(why) =>
        return Ended(Some(why)), schedule, p;
      case StillWaiting =>
        return Hanging, schedule, p;
      case LeftLoop =>
    }
    KeepsStarted(request, snap, acts);
    s.CacheNarration(snap.stepId, CachedStep(tokens, result));
    WriteTurn(g, walk, cache0, p, s.narrationCache);
    CarriesOn(g, sys, schedule, walk, cache0, p, [Write(0)], s.narrationCache, WriteCache(p));
    var failed := out.Send(CompleteOf(snap, result), completeOk);
    CompleteSent(p, completeOk);
    CarriesLocals(g, sys, schedule + [Write(0)], walk, s.narrationCache, WriteCache(p), [SendComplete(completeOk)]);
    schedule := schedule + [Write(0)] + Locals([SendComplete(completeOk)]);
    p := Acts(WriteCache(p), [SendComplete(completeOk)]);
    end := Ended(if failed then Some(CompleteNotSent) else None);
  }

  lemma NothingYet(g: GraphView, walk: W.WalkState, cache: map<string, CachedStep>, p: Rpc)
    ensures Carries(g, Solo(walk, cache, p, [0]), [], walk, cache, p)
  {
  }

  lemma LoopActs(p: Rpc, tokens: seq<string>, acts: seq<Action>)
    ensures Acts(p, [NarrateOk(tokens)] + acts) == Acts(Act(p, NarrateOk(tokens)), acts)
  {
    ActsConcat(p, [NarrateOk(tokens)], acts);
    OneAct(p, NarrateOk(tokens));
  }

  /** narrate is what the provider answers: the tokens of its channel, or None for an error; env
      is what happens during the select loop, cancelAt and okSends what happens during a replay.
      The schedule is the machine's account of the same call, from the walker and the cache as
      they were to the walker, the cache and the stream as they are left. */
  method Navigate(s: Session, out: EventStream, request: Request, narrate: Option<seq<string>>, env: seq<Action>,
                  cancelAt: nat, okSends: nat, completeOk: bool)
    returns (end: CallEnd, ghost schedule: seq<Turn>, ghost p: Rpc)
    requires s.Valid() && out.sent == []
    modifies s.walker, s.graph.steps.Values`visited, s`narrationCache, out
    ensures s.Valid() && s.graph.Arcs() == old(s.graph.Arcs())
    ensures
      var before := Initial(old(s.walker.State()), [request]).(cache := old(s.narrationCache));
      Carries(old(s.graph.View()), before, schedule, s.walker.State(), s.narrationCache, p)
    ensures p.sent == out.sent && EndsAs(p, end)
  {
    hide Runs, Serve, Acts, Act, LookUp, Locals, ReplayActions, ReplayTrace, Carries, Solo, Initial, Started;
    ghost var g := s.graph.View();
    ghost var walk0 := s.walker.State();
    ghost var cache0 := s.narrationCache;
    ghost var sys := Initial(walk0, [request]).(cache := cache0);

    var moved := s.Move(request);
    ghost var walk := s.walker.State();
    SectionTurn(g, walk0, cache0, request);
    if moved.Err? {
      return Ended(Some(moved.error)), [Section(0)], Enter(NewRpc(request), moved);
    }
    var snap := moved.value;
    var cached := s.CachedNarration(snap.stepId);
    LookupTurn(g, sys, walk, cache0, request, snap);
    p := LookUp(Enter(NewRpc(request), Ok(snap)), cached);
    LookedUp(request, snap, cached);
    schedule := [Section(0)] + [Lookup(0)];
    if cached.Some? {
      ghost var acts := ReplayActions(cached.value, |ReplayTrace(snap, cached.value)|, cancelAt, okSends);
      ReplayActionsRun(p, cancelAt, okSends);
      CarriesLocals(g, sys, schedule, walk, cache0, p, acts);
      var failure := ReplayCached(out, snap, cached.value, cancelAt, okSends);
      return Ended(failure), schedule + Locals(acts), Acts(p, acts);
    }
    ghost var live, started := [], p;
    end, live, p := NarrateLive(s, out, request, snap, narrate, env, completeOk, g, walk);
    CarriesOn(g, sys, schedule, walk, cache0, started, live, s.narrationCache, p);
    schedule := schedule + live;
  }

  lemma LookedUp(request: Request, snap: Snapshot, cached: Option<CachedStep>)
    ensures
      var p := LookUp(Enter(NewRpc(request), Ok(snap)), cached);
      && p.sent == [] && p.snap == Some(snap)
      && (cached.Some? ==> p.phase == Replaying(cached.value, 0))
      && (cached.None? ==> p == Started(request, snap))
  {
  }

  lemma StartFails(request: Request, snap: Snapshot)
    ensures Acts(Started(request, snap), [NarrateFails]) == Fail(Started(request, snap), NarrationFailed)
    ensures Started(request, snap).sent == []
  {
    OneAct(Started(request, snap), NarrateFails);
  }

  lemma KeepsStarted(request: Request, snap: Snapshot, acts: seq<Action>)
    ensures Acts(Started(request, snap), acts).snap == Some(snap)
  {
    KeepsSnap(Started(request, snap), acts);
  }

  lemma CompleteSent(q: Rpc, ok: bool)
    requires q.phase.Drained? && q.snap.Some?
    ensures
      var e := Acts(WriteCache(q), [SendComplete(ok)]);
      && e.sent == (if ok then q.sent + [CompleteOf(q.snap.value, q.summary)] else q.sent)
      && (if ok then e.phase.Done? else e.phase == Failed(CompleteNotSent))
  {
    OneAct(WriteCache(q), SendComplete(ok));
  }
}
