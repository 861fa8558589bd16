/** The session object and the imperative parts of Navigate: the critical section, the select
    loop and the replay, each tied to the machine in Narration.dfy and Navigation.dfy. */
module Sessions {
  import opened Outcomes
  import opened StepGraph
  import W = Walking
  import opened WalkerObject
  import opened Narration
  import opened NarrationTheory
  import opened Navigation

  /** The server stream of one call. Whether a send succeeds is decided by the transport. */
  class EventStream {
    var sent: seq<Narration.Event>

    constructor ()
      ensures sent == []
    {
      sent := [];
    }

    method Send(e: Narration.Event, ok: bool) returns (failed: bool)
      modifies this
      ensures failed <==> !ok
      ensures sent == if ok then old(sent) + [e] else old(sent)
    {
      if ok {
        sent := sent + [e];
      }
      failed := !ok;
    }
  }

  class Session {
    const id: string
    const graph: Graph
    const walker: Walker
    var narrationCache: map<string, CachedStep>
    var lastAccessed: int

    ghost predicate Valid()
      reads this, graph
    {
      graph.Valid() && walker.g == graph
    }

    constructor (id: string, graph: Graph, now: int)
      requires graph.Valid()
      ensures Valid() && this.id == id && this.graph == graph && fresh(walker)
      ensures walker.State() == W.Start(graph.entryID, graph.VisitedIds())
      ensures narrationCache == map[] && lastAccessed == now
    {
      this.id, this.graph, this.lastAccessed, this.narrationCache := id, graph, now, map[];
      this.walker := new Walker(graph);
    }

    method CachedNarration(stepID: string) returns (c: Option<CachedStep>)
      ensures c == if stepID in narrationCache then Some(narrationCache[stepID]) else None
    {
      c := if stepID in narrationCache then Some(narrationCache[stepID]) else None;
    }

    method CacheNarration(stepID: string, entry: CachedStep)
      modifies this`narrationCache
      ensures narrationCache == old(narrationCache)[stepID := entry]
    {
      narrationCache := narrationCache[stepID := entry];
    }

    method Touch(now: int)
      modifies this`lastAccessed
      ensures lastAccessed == now
    {
      lastAccessed := now;
    }

    /** The switch over the destination: one walker operation. */
    method MoveWalker(cmd: W.Command) returns (moved: Result<Step, W.NavError>)
      requires Valid()
      modifies walker, graph.steps.Values`visited
      ensures Valid() && graph.Arcs() == old(graph.Arcs())
      ensures walker.State() == W.Apply(old(graph.Arcs()), old(walker.State()), cmd).state
      ensures Answer(moved) == W.Apply(old(graph.Arcs()), old(walker.State()), cmd).outcome
      ensures moved.Ok? ==> walker.current in graph.steps && moved.value == graph.steps[walker.current]
    {
      hide W.Forward, W.Back, W.GoTo, W.FollowEdgeLabel;
      match cmd
      case GoForward => moved := walker.Forward();
      case GoBack => moved := walker.Back();
      case JumpTo(target) =>
        moved := walker.GoTo(target);
        GoToArrives(graph.Arcs(), old(walker.State()), target);
      case Follow(edgeLabel) => moved := walker.FollowEdgeLabel(edgeLabel);
    }

    /** The part of Navigate that runs under the session lock, and the labels read right after it. */
    method Move(request: Request) returns (r: Result<Snapshot, Failure>)
      requires Valid()
      modifies walker, graph.steps.Values`visited
      ensures Valid() && graph.Arcs() == old(graph.Arcs())
      ensures (walker.State(), r) == Serve(old(graph.View()), old(walker.State()), request)
    {
      hide W.Apply, W.Navigable, Labels;
      ghost var view := graph.View();
      ghost var ws := walker.State();
      assert EdgesOf(view) == graph.Arcs();
      match request
      case Go(cmd) =>
        var moved := MoveWalker(cmd);
        var crumb := walker.breadcrumb;
        var edges := walker.NavigableEdges();
        if moved.Err? {
          return Err(NavigationFailed);
        }
        var labels := CrumbLabels(crumb, view);
        r := Ok(Snapshot(moved.value.id, moved.value.hunkSpan.Some?, edges, labels));
        assert graph.Arcs()[walker.current] == view[walker.current].edges;
        assert SnapshotOf(view, walker.State()) == r.value;
      case UnknownDirection =>
        r := Err(InvalidRequest);
      case NoDestination =>
        r := Err(InvalidRequest);
    }

    method CrumbLabels(crumb: seq<string>, ghost view: GraphView) returns (labels: seq<string>)
      requires graph.steps.Keys == view.Keys
      requires forall id <- view :: view[id].labelText == graph.steps[id].labelText
      ensures labels == Labels(view, crumb)
    {
      labels := [];
      assert crumb[0..] == crumb;
      for i := 0 to |crumb|
        invariant labels + Labels(view, crumb[i..]) == Labels(view, crumb)
      {
        assert crumb[i..][1..] == crumb[i + 1..];
        var step := graph.StepAt(crumb[i]);
        if step.Some? {
          labels := labels + [step.value.labelText];
        }
      }
    }
  }

  datatype LoopEnd = LeftLoop | Returned(why: Failure) | StillWaiting

  lemma GoToArrives(adj: Adjacency, ws: W.WalkState, target: string)
    ensures W.GoTo(adj, ws, target).outcome.Ok? ==> W.GoTo(adj, ws, target).state.current == target
  {
  }

  /** The variables of the select loop; slot is the one-slot summary channel and working says that
      the goroutine has not sent yet. */
  datatype LoopVars = LoopVars(
    tokenOpen: bool, awaiting: bool, left: seq<string>, collected: seq<string>, result: Option<StepSummary>,
    working: bool, slot: seq<Option<StepSummary>>, produced: Option<StepSummary>)

  /** The machine state that corresponds to the loop variables and what has been sent. */
  function AsRpc(request: Request, snap: Snapshot, v: LoopVars, sent: seq<Narration.Event>): Rpc {
    Rpc(request, if v.tokenOpen || v.awaiting then Draining else Drained, Some(snap), sent, true,
        v.collected + v.left, v.collected, v.tokenOpen, v.awaiting,
        if !snap.hasHunk then NoTask else if v.working then Working else Finished,
        v.slot, v.produced, v.result, false)
  }

  ghost predicate LoopInv(snap: Snapshot, v: LoopVars) {
    && (v.working ==> snap.hasHunk && v.slot == [])
    && (v.awaiting || !v.working) && (v.slot != [] ==> v.awaiting)
  }

  lemma IdleAct(request: Request, snap: Snapshot, v: LoopVars, sent: seq<Narration.Event>, a: Action)
    requires v.tokenOpen || v.awaiting
    requires a.NarrateOk? || a.NarrateFails? || a.SendComplete? || a.ReplaySend? || a.ReplayCancel? || (a.Summarise? && !v.working)
             || (a.Receive? && (!v.tokenOpen || v.left == [])) || (a.Close? && (!v.tokenOpen || v.left != []))
             || (a.TakeSummary? && (!v.awaiting || v.slot == []))
    ensures Act(AsRpc(request, snap, v, sent), a) == AsRpc(request, snap, v, sent)
  {
    hide ReplayTrace, CompleteOf;
  }

  lemma CancelAct(request: Request, snap: Snapshot, v: LoopVars, sent: seq<Narration.Event>)
    requires v.tokenOpen || v.awaiting
    ensures Act(AsRpc(request, snap, v, sent), Cancel) == Fail(AsRpc(request, snap, v, sent), Cancelled)
  {
  }

  lemma CloseAct(request: Request, snap: Snapshot, v: LoopVars, sent: seq<Narration.Event>)
    requires v.tokenOpen && v.left == []
    ensures Act(AsRpc(request, snap, v, sent), Close) == AsRpc(request, snap, v.(tokenOpen := false), sent)
  {
  }

  lemma SummariseAct(request: Request, snap: Snapshot, v: LoopVars, sent: seq<Narration.Event>, s: Option<StepSummary>)
    requires v.working && LoopInv(snap, v)
    ensures Act(AsRpc(request, snap, v, sent), Summarise(s))
         == AsRpc(request, snap, v.(working := false, produced := s, slot := [s]), sent)
  {
  }

  lemma ReceiveAct(request: Request, snap: Snapshot, v: LoopVars, sent: seq<Narration.Event>, ok: bool)
    requires v.tokenOpen && v.left != []
    ensures
      var token := v.left[0];
      var w := v.(left := v.left[1..], collected := v.collected + [token]);
      Act(AsRpc(request, snap, v, sent), Receive(ok))
      == if ok then AsRpc(request, snap, w, sent + [Token(token)]) else Fail(AsRpc(request, snap, w, sent), SendFailed)
  {
    assert v.collected + v.left == v.collected + [v.left[0]] + v.left[1..];
  }

  lemma TakeAct(request: Request, snap: Snapshot, v: LoopVars, sent: seq<Narration.Event>, ok: bool)
    requires v.awaiting && v.slot != []
    ensures
      var w := v.(awaiting := false, slot := [], result := v.slot[0]);
      Act(AsRpc(request, snap, v, sent), TakeSummary(ok))
      == if w.result.None? then AsRpc(request, snap, w, sent)
         else if ok then AsRpc(request, snap, w, sent + [SummaryReady(w.result.value)])
         else Fail(AsRpc(request, snap, w, sent).(phase := Draining), SendFailed)
  {
  }

  lemma LoopStart(request: Request, snap: Snapshot, tokens: seq<string>)
    ensures Act(Started(request, snap), NarrateOk(tokens))
         == AsRpc(request, snap, LoopVars(true, snap.hasHunk, tokens, [], None, snap.hasHunk, [], None), [])
  {
    assert [] + tokens == tokens;
  }

  /** The select loop of Navigate, for a channel that delivers tokens and is then closed. env is
      what happens while the loop runs, in order; p is the state of the machine it has reached. */
  method SelectLoop(out: EventStream, request: Request, snap: Snapshot, tokens: seq<string>, env: seq<Action>)
    returns (collected: seq<string>, result: Option<StepSummary>, end: LoopEnd, ghost p: Rpc, ghost used: nat)
    requires out.sent == []
    modifies out
    ensures used <= |env| && p == Acts(Act(Started(request, snap), NarrateOk(tokens)), env[..used])
    ensures p.sent == out.sent && p.received == collected && p.summary == result
    ensures match end
      case LeftLoop => p.phase.Drained?
      case Returned(why) => p.phase == Failed(why)
      case StillWaiting => p.phase.Draining? && used == |env|
  {
    hide Acts, Act, Started;
    var tokenCh, summaryCh := true, snap.hasHunk;
    var working, slot, produced := snap.hasHunk, [], None;
    var left := tokens;
    collected, result := [], None;
    LoopStart(request, snap, tokens);
    ghost var p0 := Act(Started(request, snap), NarrateOk(tokens));
    NoActs(p0, env);
    p, used := p0, 0;
    var i := 0;
    while (tokenCh || summaryCh) && i < |env|
      invariant i == used <= |env| && p == Acts(p0, env[..i])
      invariant
        var v := LoopVars(tokenCh, summaryCh, left, collected, result, working, slot, produced);
        p == AsRpc(request, snap, v, out.sent) && LoopInv(snap, v)
    {
      ghost var v := LoopVars(tokenCh, summaryCh, left, collected, result, working, slot, produced);
      ghost var sent := out.sent;
      p, used := Act(p, env[i]), i + 1;
      ActsSnoc(p0, env, i);
      match env[i] {
        case Cancel =>
          CancelAct(request, snap, v, sent);
          return collected, result, Returned(Cancelled), p, used;
        case Close =>
          if tokenCh && left == [] {
            CloseAct(request, snap, v, sent);
            tokenCh := false;
          } else {
            IdleAct(request, snap, v, sent, env[i]);
          }
        case Receive(ok) =>
          if tokenCh && left != [] {
            ReceiveAct(request, snap, v, sent, ok);
            var token := left[0];
            left := left[1..];
            collected := collected + [token];
            var failed := out.Send(Token(token), ok);
            if failed {
              return collected, result, Returned(SendFailed), p, used;
            }
          } else {
            IdleAct(request, snap, v, sent, env[i]);
          }
        case TakeSummary(ok) =>
          if summaryCh && slot != [] {
            TakeAct(request, snap, v, sent, ok);
            summaryCh := false;
            result := slot[0];
            slot := [];
            if result.Some? {
              var failed := out.Send(SummaryReady(result.value), ok);
              if failed {
                return collected, result, Returned(SendFailed), p, used;
              }
            }
          } else {
            IdleAct(request, snap, v, sent, env[i]);
          }
        case Summarise(summary) =>
          if working {
            SummariseAct(request, snap, v, sent, summary);
            working, produced, slot := false, summary, [summary];
          } else {
            IdleAct(request, snap, v, sent, env[i]);
          }
        case _ =>
          IdleAct(request, snap, v, sent, env[i]);
      }
      i := i + 1;
    }
    end := if tokenCh || summaryCh then StillWaiting else LeftLoop;
  }

  lemma NoActs(p: Rpc, env: seq<Action>)
    ensures Acts(p, env[..0]) == p
  {
  }

  lemma ActsSnoc(p: Rpc, env: seq<Action>, i: nat)
    requires i < |env|
    ensures Acts(p, env[..i + 1]) == Act(Acts(p, env[..i]), env[i])
  {
    assert env[..i + 1] == env[..i] + [env[i]];
    ActsConcat(p, env[..i], [env[i]]);
    OneAct(Acts(p, env[..i]), env[i]);
  }

  /** Where a replay stops: its context is found cancelled from the check before token cancelAt
      on, and its first okSends sends succeed. */
  function StopsAt(entry: CachedStep, total: nat, cancelAt: nat, okSends: nat): nat {
    var sends := if okSends < total then okSends else total;
    if cancelAt < |entry.tokens| && cancelAt < sends then cancelAt else sends
  }

  method ReplayCached(out: EventStream, snap: Snapshot, entry: CachedStep, cancelAt: nat, okSends: nat)
    returns (failure: Option<Failure>)
    modifies out
    ensures
      var trace := ReplayTrace(snap, entry);
      var stop := StopsAt(entry, |trace|, cancelAt, okSends);
      && stop <= |trace| && out.sent == old(out.sent) + trace[..stop]
      && (failure.None? <==> stop == |trace|)
      && (failure.Some? ==>
            failure.value == if cancelAt < |entry.tokens| && cancelAt <= okSends then Cancelled else SendFailed)
  {
    hide ReplayTrace, CompleteOf;
    ghost var trace := ReplayTrace(snap, entry);
    ReplayShape(snap, entry);
    assert trace[..0] == [];
    for i := 0 to |entry.tokens|
      invariant out.sent == old(out.sent) + trace[..i]
      invariant i <= cancelAt && i <= okSends
    {
      if cancelAt <= i {
        return Some(Cancelled);
      }
      var failed := out.Send(Token(entry.tokens[i]), i < okSends);
      if failed {
        return Some(SendFailed);
      }
      assert trace[..i + 1] == trace[..i] + [trace[i]];
    }
    var next := |entry.tokens|;
    if entry.summary.Some? {
      var failed := out.Send(SummaryReady(entry.summary.value), next < okSends);
      if failed {
        return Some(SendFailed);
      }
      assert trace[..next + 1] == trace[..next] + [trace[next]];
      next := next + 1;
    }
    var failed := out.Send(CompleteOf(snap, entry.summary), next < okSends);
    assert trace == trace[..next] + [trace[next]];
    failure := if failed then Some(SendFailed) else None;
  }

  /** The events of a replay by their places. */
  lemma ReplayShape(snap: Snapshot, entry: CachedStep)
    ensures
      var trace, n := ReplayTrace(snap, entry), |entry.tokens|;
      && |trace| == n + (if entry.summary.Some? then 2 else 1)
      && (forall i :: 0 <= i < n ==> trace[i] == Token(entry.tokens[i]))
      && (entry.summary.Some? ==> trace[n] == SummaryReady(entry.summary.value))
      && trace[|trace| - 1] == CompleteOf(snap, entry.summary)
  {
    hide CompleteOf;
    TokenEventsFacts(entry.tokens);
  }
}
