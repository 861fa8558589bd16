/** Safety of every interleaving of Navigate calls. */
module NavigationTheory {
  import opened Outcomes
  import opened Walking
  import opened Narration
  import opened NarrationTheory
  import opened Navigation
  import opened Cycles

  /** The call r entered the i-th critical section and was answered there. */
  ghost predicate Entered(g: GraphView, walk0: WalkState, served: seq<Request>, i: nat, p: Rpc)
    requires i < |served|
  {
    match AnswerAt(g, walk0, served, i)
    case Ok(snap) => p.snap == Some(snap) && !p.phase.Waiting?
    case Err(why) => p.phase == Failed(why)
  }

  ghost predicate LogInv(g: GraphView, walk0: WalkState, requests: seq<Request>, sys: System) {
    && |sys.rpcs| == |requests|
    && (forall r :: 0 <= r < |requests| ==> sys.rpcs[r].request == requests[r])
    && (forall i :: 0 <= i < |sys.log| ==> sys.log[i] < |requests|)
    && Distinct(sys.log)
    && (forall r: nat :: r < |requests| ==> (r in sys.log <==> !sys.rpcs[r].phase.Waiting?))
    && sys.walk == Fold(g, walk0, InOrder(requests, sys.log))
    && (forall i: nat :: i < |sys.log| ==> Entered(g, walk0, InOrder(requests, sys.log), i, sys.rpcs[sys.log[i]]))
  }

  ghost predicate CallsInv(sys: System) {
    forall r :: 0 <= r < |sys.rpcs| ==> RpcInv(sys.rpcs[r])
  }

  /** Call p has narrated the step id to the end and entry is what it received. */
  ghost predicate Narrated(p: Rpc, id: string, entry: CachedStep) {
    && p.wrote && p.called && p.snap.Some? && p.snap.value.stepId == id
    && entry == EntryOf(p) && p.received == p.stream
    && p.summary == p.produced && (p.summary.Some? ==> p.snap.value.hasHunk)
  }

  ghost predicate Sourced(sys: System, id: string, entry: CachedStep) {
    exists r :: 0 <= r < |sys.rpcs| && Narrated(sys.rpcs[r], id, entry)
  }

  ghost predicate CacheInv(sys: System) {
    forall id :: id in sys.cache ==> Sourced(sys, id, sys.cache[id])
  }

  /** A call that has written keeps what it received. */
  lemma ActKeepsEntry(p: Rpc, a: Action)
    requires RpcInv(p) && p.wrote
    ensures Act(p, a).received == p.received && Act(p, a).stream == p.stream
    ensures Act(p, a).summary == p.summary && Act(p, a).produced == p.produced
  {
  }

  lemma NarratedKept(p: Rpc, a: Action, id: string, entry: CachedStep)
    requires RpcInv(p) && Narrated(p, id, entry)
    ensures Narrated(Act(p, a), id, entry)
  {
    ActKeepsEntry(p, a);
    ActKeepsSnap(p, a);
  }

  lemma NextKeepsCalls(g: GraphView, sys: System, e: Turn)
    requires CallsInv(sys)
    ensures CallsInv(TakeTurn(g, sys, e))
  {
    var t := TakeTurn(g, sys, e);
    forall r | 0 <= r < |t.rpcs|
      ensures RpcInv(t.rpcs[r])
    {
      assert RpcInv(sys.rpcs[r]);
      if r == e.call {
        NextKeepsCall(g, sys, e);
      }
    }
  }

  lemma NextKeepsCall(g: GraphView, sys: System, e: Turn)
    requires e.call < |sys.rpcs| && RpcInv(sys.rpcs[e.call])
    ensures RpcInv(TakeTurn(g, sys, e).rpcs[e.call])
  {
    var p := sys.rpcs[e.call];
    match e
    case Section(_) =>
    case Lookup(_) =>
      if p.phase.Located? && p.snap.Some? {
        var id := p.snap.value.stepId;
        LookUpKeepsInv(p, if id in sys.cache then Some(sys.cache[id]) else None);
      }
    case Write(_) =>
    case Local(_, a) => ActKeepsInv(p, a);
  }

  lemma NextKeepsSourced(g: GraphView, sys: System, e: Turn, id: string, entry: CachedStep)
    requires CallsInv(sys) && Sourced(sys, id, entry)
    ensures Sourced(TakeTurn(g, sys, e), id, entry)
  {
    var r :| 0 <= r < |sys.rpcs| && Narrated(sys.rpcs[r], id, entry);
    var t := TakeTurn(g, sys, e);
    assert RpcInv(sys.rpcs[r]);
    if e.call == r && e.Local? {
      NarratedKept(sys.rpcs[r], e.action, id, entry);
    }
    assert Narrated(t.rpcs[r], id, entry);
  }

  lemma NextKeepsCache(g: GraphView, sys: System, e: Turn)
    requires CallsInv(sys) && CacheInv(sys)
    ensures CacheInv(TakeTurn(g, sys, e)) && sys.cache.Keys <= TakeTurn(g, sys, e).cache.Keys
  {
    var t := TakeTurn(g, sys, e);
    forall id | id in t.cache
      ensures Sourced(t, id, t.cache[id])
    {
      if id in sys.cache && t.cache[id] == sys.cache[id] {
        NextKeepsSourced(g, sys, e, id, sys.cache[id]);
      } else {
        var p := sys.rpcs[e.call];
        assert RpcInv(p);
        assert Narrated(t.rpcs[e.call], id, EntryOf(p));
      }
    }
  }

  lemma NextKeepsEntered(g: GraphView, walk0: WalkState, served: seq<Request>, i: nat, sys: System, e: Turn)
    requires i < |served| && e.call < |sys.rpcs| && !sys.rpcs[e.call].phase.Waiting?
    requires Entered(g, walk0, served, i, sys.rpcs[e.call])
    ensures Entered(g, walk0, served, i, TakeTurn(g, sys, e).rpcs[e.call])
    ensures !TakeTurn(g, sys, e).rpcs[e.call].phase.Waiting?
  {
    hide Act, AnswerAt;
    if e.Local? {
      ActKeepsSnap(sys.rpcs[e.call], e.action);
      ActPhases(sys.rpcs[e.call], e.action);
    }
  }

  lemma {:induction false} FoldSnoc(g: GraphView, ws: WalkState, requests: seq<Request>, request: Request)
    ensures Fold(g, ws, requests + [request]) == Serve(g, Fold(g, ws, requests), request).0
  {
    assert (requests + [request])[..|requests|] == requests;
  }

  lemma InOrderSnoc(requests: seq<Request>, log: seq<nat>, r: nat)
    requires r < |requests|
    ensures InOrder(requests, log + [r]) == InOrder(requests, log) + [requests[r]]
  {
  }

  /** Serving one more request leaves the earlier sections as they were. */
  lemma EnteredStays(g: GraphView, walk0: WalkState, served: seq<Request>, more: Request, i: nat, p: Rpc)
    requires i < |served| && Entered(g, walk0, served, i, p)
    ensures Entered(g, walk0, served + [more], i, p)
  {
    assert (served + [more])[..i] == served[..i];
  }

  lemma EnteredNow(g: GraphView, walk0: WalkState, served: seq<Request>, p: Rpc)
    requires p.phase.Waiting?
    ensures
      Entered(g, walk0, served + [p.request], |served|, Enter(p, Serve(g, Fold(g, walk0, served), p.request).1))
  {
    assert (served + [p.request])[..|served|] == served;
  }

  lemma SectionKeepsLog(g: GraphView, walk0: WalkState, requests: seq<Request>, sys: System, r: nat)
    requires LogInv(g, walk0, requests, sys) && r < |sys.rpcs| && sys.rpcs[r].phase.Waiting?
    ensures LogInv(g, walk0, requests, TakeTurn(g, sys, Section(r)))
  {
    hide InOrder, Entered, Serve, Fold;
    var t := TakeTurn(g, sys, Section(r));
    var served := InOrder(requests, sys.log);
    assert r !in sys.log;
    InOrderSnoc(requests, sys.log, r);
    FoldSnoc(g, walk0, served, requests[r]);
    EnteredNow(g, walk0, served, sys.rpcs[r]);
    forall i: nat | i < |t.log|
      ensures Entered(g, walk0, served + [requests[r]], i, t.rpcs[t.log[i]])
    {
      if i < |sys.log| {
        assert sys.log[i] in sys.log;
        EnteredStays(g, walk0, served, requests[r], i, sys.rpcs[sys.log[i]]);
      }
    }
  }

  lemma NextKeepsLog(g: GraphView, walk0: WalkState, requests: seq<Request>, sys: System, e: Turn)
    requires LogInv(g, walk0, requests, sys) && CallsInv(sys)
    ensures LogInv(g, walk0, requests, TakeTurn(g, sys, e))
  {
    var t := TakeTurn(g, sys, e);
    if e.Section? && e.call < |sys.rpcs| && sys.rpcs[e.call].phase.Waiting? {
      SectionKeepsLog(g, walk0, requests, sys, e.call);
    } else if e.call < |sys.rpcs| {
      OtherKeepsLog(g, walk0, requests, sys, e);
    }
  }

  /** Outside its critical section a call keeps its request, and waits or does not wait as before. */
  lemma OtherKeepsCall(g: GraphView, sys: System, e: Turn)
    requires e.call < |sys.rpcs| && !(e.Section? && sys.rpcs[e.call].phase.Waiting?)
    ensures
      var t := TakeTurn(g, sys, e);
      && t.log == sys.log && t.walk == sys.walk && |t.rpcs| == |sys.rpcs|
      && (forall r :: 0 <= r < |sys.rpcs| && r != e.call ==> t.rpcs[r] == sys.rpcs[r])
      && t.rpcs[e.call].request == sys.rpcs[e.call].request
      && (t.rpcs[e.call].phase.Waiting? <==> sys.rpcs[e.call].phase.Waiting?)
  {
    hide Act;
    if e.Local? {
      ActKeepsSnap(sys.rpcs[e.call], e.action);
      ActPhases(sys.rpcs[e.call], e.action);
    }
  }

  lemma OtherKeepsLog(g: GraphView, walk0: WalkState, requests: seq<Request>, sys: System, e: Turn)
    requires LogInv(g, walk0, requests, sys) && e.call < |sys.rpcs|
    requires !(e.Section? && sys.rpcs[e.call].phase.Waiting?)
    ensures LogInv(g, walk0, requests, TakeTurn(g, sys, e))
  {
    var t := TakeTurn(g, sys, e);
    OtherKeepsCall(g, sys, e);
    var served := InOrder(requests, sys.log);
    forall i: nat | i < |t.log|
      ensures Entered(g, walk0, served, i, t.rpcs[t.log[i]])
    {
      assert Entered(g, walk0, served, i, sys.rpcs[sys.log[i]]);
      assert sys.log[i] in sys.log;
      if sys.log[i] == e.call {
        NextKeepsEntered(g, walk0, served, i, sys, e);
      }
    }
  }

  ghost predicate IsHunk(g: GraphView, id: string) {
    id in g && g[id].hunkSpan.Some?
  }

  /** A replaying call sends the full output that some call received for the same step. */
  ghost predicate ReplaySourced(sys: System, p: Rpc) {
    && (p.phase.Replaying? ==> p.snap.Some? && Sourced(sys, p.snap.value.stepId, p.phase.entry))
    && (p.phase.Done? && !p.called ==> p.snap.Some? && exists entry :: FullReplay(sys, p, entry))
  }

  ghost predicate FullReplay(sys: System, p: Rpc, entry: CachedStep)
    requires p.snap.Some?
  {
    p.sent == ReplayTrace(p.snap.value, entry) && Sourced(sys, p.snap.value.stepId, entry)
  }

  ghost predicate SnapRight(g: GraphView, p: Rpc) {
    p.snap.Some? ==> (p.snap.value.hasHunk <==> IsHunk(g, p.snap.value.stepId))
  }

  ghost predicate ReplayInv(g: GraphView, sys: System) {
    forall r :: 0 <= r < |sys.rpcs| ==> SnapRight(g, sys.rpcs[r]) && ReplaySourced(sys, sys.rpcs[r])
  }

  lemma ReplaySourcedStays(g: GraphView, sys: System, e: Turn, p: Rpc)
    requires CallsInv(sys) && ReplaySourced(sys, p)
    ensures ReplaySourced(TakeTurn(g, sys, e), p)
  {
    var t := TakeTurn(g, sys, e);
    if p.phase.Replaying? {
      NextKeepsSourced(g, sys, e, p.snap.value.stepId, p.phase.entry);
    }
    if p.phase.Done? && !p.called {
      var entry :| FullReplay(sys, p, entry);
      NextKeepsSourced(g, sys, e, p.snap.value.stepId, entry);
      assert FullReplay(t, p, entry);
    }
  }

  lemma TurnKeepsReplay(g: GraphView, sys: System, e: Turn)
    requires CallsInv(sys) && CacheInv(sys) && e.call < |sys.rpcs|
    requires SnapRight(g, sys.rpcs[e.call]) && ReplaySourced(sys, sys.rpcs[e.call])
    ensures SnapRight(g, TakeTurn(g, sys, e).rpcs[e.call])
    ensures ReplaySourced(TakeTurn(g, sys, e), TakeTurn(g, sys, e).rpcs[e.call])
  {
    hide Act, Sourced, RpcInv;
    var p := sys.rpcs[e.call];
    assert RpcInv(p);
    ReplaySourcedStays(g, sys, e, p);
    match e
    case Section(_) =>
    case Lookup(_) =>
      if p.phase.Located? && p.snap.Some? && p.snap.value.stepId in sys.cache {
        var id := p.snap.value.stepId;
        NextKeepsSourced(g, sys, e, id, sys.cache[id]);
      }
    case Write(_) =>
    case Local(r, a) =>
      LocalKeepsReplay(g, TakeTurn(g, sys, e), p, a);
  }

  lemma LocalKeepsReplay(g: GraphView, t: System, p: Rpc, a: Action)
    requires RpcInv(p) && SnapRight(g, p) && ReplaySourced(t, p)
    ensures SnapRight(g, Act(p, a)) && ReplaySourced(t, Act(p, a))
  {
    hide Act, Sourced, RpcInv;
    var q := Act(p, a);
    ActKeepsSnap(p, a);
    ActPhases(p, a);
    if q.phase.Done? && p.phase.Replaying? {
      ReplayEnds(p, a);
      assert FullReplay(t, q, p.phase.entry);
    } else if q.phase.Done? && p.phase.Done? && !p.called {
      var entry :| FullReplay(t, p, entry);
      assert FullReplay(t, q, entry);
    } else if p.phase.Written? {
      WrittenCalled(p);
    }
  }

  lemma WrittenCalled(p: Rpc)
    requires RpcInv(p) && p.phase.Written?
    ensures p.called
  {
  }

  lemma ReplayEnds(p: Rpc, a: Action)
    requires RpcInv(p) && p.phase.Replaying? && Act(p, a).phase.Done?
    ensures Act(p, a).sent == ReplayTrace(p.snap.value, p.phase.entry)
  {
    var trace := ReplayTrace(p.snap.value, p.phase.entry);
    assert trace == trace[..|trace| - 1] + [trace[|trace| - 1]];
  }

  lemma NextKeepsReplay(g: GraphView, sys: System, e: Turn)
    requires CallsInv(sys) && CacheInv(sys) && ReplayInv(g, sys)
    ensures ReplayInv(g, TakeTurn(g, sys, e))
  {
    var t := TakeTurn(g, sys, e);
    forall r | 0 <= r < |t.rpcs|
      ensures SnapRight(g, t.rpcs[r]) && ReplaySourced(t, t.rpcs[r])
    {
      assert SnapRight(g, sys.rpcs[r]) && ReplaySourced(sys, sys.rpcs[r]);
      if r == e.call {
        TurnKeepsReplay(g, sys, e);
      } else {
        ReplaySourcedStays(g, sys, e, sys.rpcs[r]);
      }
    }
  }

  /** The invariant of every reachable state. */
  ghost predicate SystemInv(g: GraphView, walk0: WalkState, requests: seq<Request>, sys: System) {
    LogInv(g, walk0, requests, sys) && CallsInv(sys) && CacheInv(sys) && ReplayInv(g, sys)
  }

  lemma InitialInv(g: GraphView, walk0: WalkState, requests: seq<Request>)
    ensures SystemInv(g, walk0, requests, Initial(walk0, requests))
  {
  }

  lemma {:induction false} RunsKeepInv(g: GraphView, walk0: WalkState, requests: seq<Request>, sys: System, schedule: seq<Turn>)
    requires SystemInv(g, walk0, requests, sys)
    decreases schedule
    ensures SystemInv(g, walk0, requests, Runs(g, sys, schedule))
    ensures sys.cache.Keys <= Runs(g, sys, schedule).cache.Keys
  {
    if schedule != [] {
      hide LogInv, CallsInv, CacheInv, ReplayInv, TakeTurn;
      NextKeepsLog(g, walk0, requests, sys, schedule[0]);
      NextKeepsCalls(g, sys, schedule[0]);
      NextKeepsCache(g, sys, schedule[0]);
      NextKeepsReplay(g, sys, schedule[0]);
      RunsKeepInv(g, walk0, requests, TakeTurn(g, sys, schedule[0]), schedule[1..]);
    }
  }

  // ------------------------------------------------------------------ the theorems

  /** Under every schedule the walker is where the requests, served one at a time in lock order,
      would have put it; no call is served twice. */
  lemma WalkerIsSequential(g: GraphView, walk0: WalkState, requests: seq<Request>, schedule: seq<Turn>)
    ensures
      var sys := Runs(g, Initial(walk0, requests), schedule);
      && Distinct(sys.log) && (forall i :: 0 <= i < |sys.log| ==> sys.log[i] < |requests|)
      && sys.walk == Fold(g, walk0, InOrder(requests, sys.log))
  {
    InitialInv(g, walk0, requests);
    RunsKeepInv(g, walk0, requests, Initial(walk0, requests), schedule);
  }

  /** e is a Complete with the step, edges and breadcrumb of the i-th critical section, which was
      that of call r. */
  ghost predicate FromSection(g: GraphView, walk0: WalkState, requests: seq<Request>, log: seq<nat>,
                              r: nat, i: nat, e: Event) {
    i < |log| && log[i] == r && e.Complete? &&
    match AnswerAt(g, walk0, InOrder(requests, log), i)
    case Ok(snap) => e == CompleteOf(snap, e.final)
    case Err(_) => false
  }

  lemma CompleteAtEnd(p: Rpc, k: nat)
    requires RpcInv(p) && k < |p.sent| && p.sent[k].Complete?
    ensures p.phase.Done? && k == |p.sent| - 1 && p.snap.Some?
    ensures p.sent[k] == CompleteOf(p.snap.value, p.sent[k].final)
  {
    if p.phase.Done? {
      var last := |p.sent| - 1;
      if !p.called {
        var entry :| p.sent == ReplayTrace(p.snap.value, entry);
        ReplayLast(p.snap.value, entry);
      }
      assert NoComplete(p.sent[..last]);
      forall i: nat | i < last
        ensures !p.sent[i].Complete?
      {
        assert p.sent[i] == p.sent[..last][i];
        NoCompleteAt(p.sent[..last], i);
      }
    } else {
      if p.phase.Replaying? {
        ReplayPrefix(p.snap.value, p.phase.entry, p.phase.next);
      }
      NoCompleteAt(p.sent, k);
    }
  }

  lemma NoCompleteAt(evs: seq<Event>, k: nat)
    requires NoComplete(evs) && k < |evs|
    ensures !evs[k].Complete?
  {
    assert evs[k] in evs;
  }

  /** Every Complete, live or replayed, carries the step, the edges and the breadcrumb of the
      critical section of its own call; it is the last event of its stream. */
  lemma CompleteIsOwn(g: GraphView, walk0: WalkState, requests: seq<Request>, schedule: seq<Turn>, r: nat, k: nat)
    requires
      var sys := Runs(g, Initial(walk0, requests), schedule);
      r < |sys.rpcs| && k < |sys.rpcs[r].sent| && sys.rpcs[r].sent[k].Complete?
    ensures
      var sys := Runs(g, Initial(walk0, requests), schedule);
      && sys.rpcs[r].phase.Done? && k == |sys.rpcs[r].sent| - 1
      && exists i :: FromSection(g, walk0, requests, sys.log, r, i, sys.rpcs[r].sent[k])
  {
    var sys := Runs(g, Initial(walk0, requests), schedule);
    InitialInv(g, walk0, requests);
    RunsKeepInv(g, walk0, requests, Initial(walk0, requests), schedule);
    var p := sys.rpcs[r];
    CompleteAtEnd(p, k);
    var i :| 0 <= i < |sys.log| && sys.log[i] == r;
    assert Entered(g, walk0, InOrder(requests, sys.log), i, p);
    assert FromSection(g, walk0, requests, sys.log, r, i, p.sent[k]);
  }

  /** Whatever the cache holds for a step is the full output that some call received for it. */
  lemma CacheIsFullOutput(g: GraphView, walk0: WalkState, requests: seq<Request>, schedule: seq<Turn>, id: string)
    requires id in Runs(g, Initial(walk0, requests), schedule).cache
    ensures
      var sys := Runs(g, Initial(walk0, requests), schedule);
      Sourced(sys, id, sys.cache[id])
  {
    InitialInv(g, walk0, requests);
    RunsKeepInv(g, walk0, requests, Initial(walk0, requests), schedule);
  }

  /** No step is ever dropped from the cache. */
  lemma CacheOnlyGrows(g: GraphView, walk0: WalkState, requests: seq<Request>, before: seq<Turn>, after: seq<Turn>)
    ensures
      Runs(g, Initial(walk0, requests), before).cache.Keys
      <= Runs(g, Runs(g, Initial(walk0, requests), before), after).cache.Keys
  {
    InitialInv(g, walk0, requests);
    RunsKeepInv(g, walk0, requests, Initial(walk0, requests), before);
    RunsKeepInv(g, walk0, requests, Runs(g, Initial(walk0, requests), before), after);
  }

  /** The call r has not asked the provider to narrate the step id. */
  ghost predicate Spares(sys: System, r: nat, id: string) {
    r < |sys.rpcs| && (sys.rpcs[r].called ==> sys.rpcs[r].snap.Some? && sys.rpcs[r].snap.value.stepId != id)
  }

  lemma NextSpares(g: GraphView, sys: System, e: Turn, r: nat, id: string)
    requires CallsInv(sys) && id in sys.cache && Spares(sys, r, id)
    ensures Spares(TakeTurn(g, sys, e), r, id)
  {
    var p := sys.rpcs[r];
    assert RpcInv(p);
    if e.call == r && e.Local? {
      ActKeepsSnap(p, e.action);
    }
  }

  lemma {:induction false} RunsSpare(g: GraphView, walk0: WalkState, requests: seq<Request>,
                                     sys: System, schedule: seq<Turn>, r: nat, id: string)
    requires SystemInv(g, walk0, requests, sys) && id in sys.cache && Spares(sys, r, id)
    decreases schedule
    ensures Spares(Runs(g, sys, schedule), r, id)
  {
    if schedule != [] {
      hide LogInv, CallsInv, CacheInv, ReplayInv, TakeTurn, Spares;
      var t := TakeTurn(g, sys, schedule[0]);
      NextKeepsLog(g, walk0, requests, sys, schedule[0]);
      NextKeepsCalls(g, sys, schedule[0]);
      NextKeepsCache(g, sys, schedule[0]);
      NextKeepsReplay(g, sys, schedule[0]);
      NextSpares(g, sys, schedule[0], r, id);
      assert id in t.cache;
      RunsSpare(g, walk0, requests, t, schedule[1..], r, id);
    }
  }

  /** Once a step is in the cache, a call that has not looked up yet will never ask the provider
      to narrate that step, whatever the schedule. */
  lemma LookupAfterWriteIsHit(g: GraphView, walk0: WalkState, requests: seq<Request>,
                              before: seq<Turn>, after: seq<Turn>, r: nat, id: string)
    requires
      var sys := Runs(g, Initial(walk0, requests), before);
      id in sys.cache && r < |sys.rpcs| && (sys.rpcs[r].phase.Waiting? || sys.rpcs[r].phase.Located?)
    ensures Spares(Runs(g, Runs(g, Initial(walk0, requests), before), after), r, id)
  {
    var sys := Runs(g, Initial(walk0, requests), before);
    InitialInv(g, walk0, requests);
    RunsKeepInv(g, walk0, requests, Initial(walk0, requests), before);
    assert RpcInv(sys.rpcs[r]);
    RunsSpare(g, walk0, requests, sys, after, r, id);
  }

  /** How calls end, under every schedule. A call that narrated and ended well has streamed its
      provider's tokens in order, its summary somewhere among them, Complete last, and has written
      the cache. A replay has streamed the stored output of some call. A call that failed has not
      sent Complete, and has not written unless Complete was all that was missing. */
  lemma CallsEndWell(g: GraphView, walk0: WalkState, requests: seq<Request>, schedule: seq<Turn>, r: nat)
    requires r < |Runs(g, Initial(walk0, requests), schedule).rpcs|
    ensures
      var sys := Runs(g, Initial(walk0, requests), schedule);
      var p := sys.rpcs[r];
      && (p.phase.Done? && p.called ==> Streamed(p) && Streams(p.sent, p.snap.value, EntryOf(p)))
      && (p.phase.Done? && !p.called ==> !p.wrote && p.snap.Some? && exists entry :: ReplayedInFull(sys, p, entry))
      && (p.phase.Failed? ==> NoComplete(p.sent) && (p.wrote <==> p.phase.why.CompleteNotSent?))
  {
    hide *;
    InitialInv(g, walk0, requests);
    RunsKeepInv(g, walk0, requests, Initial(walk0, requests), schedule);
    var sys := Runs(g, Initial(walk0, requests), schedule);
    CallOf(g, walk0, requests, sys, r);
    LiveEnds(sys.rpcs[r]);
    ReplayEndsWell(sys, sys.rpcs[r]);
    FailedEnds(sys.rpcs[r]);
  }

  lemma CallOf(g: GraphView, walk0: WalkState, requests: seq<Request>, sys: System, r: nat)
    requires SystemInv(g, walk0, requests, sys) && r < |sys.rpcs|
    ensures RpcInv(sys.rpcs[r]) && ReplaySourced(sys, sys.rpcs[r])
  {
    hide RpcInv, ReplaySourced, LogInv, CacheInv;
  }

  lemma LiveEnds(p: Rpc)
    requires RpcInv(p)
    ensures p.phase.Done? && p.called ==> Streamed(p) && Streams(p.sent, p.snap.value, EntryOf(p))
  {
    if p.phase.Done? && p.called {
      hide Streams, LiveTrace;
      var at := DoneLive(p);
      LiveStreams(p.snap.value, EntryOf(p), at);
    }
  }

  lemma ReplayEndsWell(sys: System, p: Rpc)
    requires RpcInv(p) && ReplaySourced(sys, p)
    ensures p.phase.Done? && !p.called ==> !p.wrote && p.snap.Some? && exists entry :: ReplayedInFull(sys, p, entry)
  {
    hide Streams, Sourced;
    if p.phase.Done? && !p.called {
      var entry :| FullReplay(sys, p, entry);
      ReplayStreams(p.snap.value, entry);
      assert ReplayedInFull(sys, p, entry);
    }
  }

  lemma FailedEnds(p: Rpc)
    requires RpcInv(p)
    ensures p.phase.Failed? ==> NoComplete(p.sent) && (p.wrote <==> p.phase.why.CompleteNotSent?)
  {
  }

  /** The call has streamed an entry that some call received for the same step. */
  ghost predicate ReplayedInFull(sys: System, p: Rpc, entry: CachedStep) {
    p.snap.Some? && FullReplay(sys, p, entry) && Streams(p.sent, p.snap.value, entry)
  }

  ghost predicate Streamed(p: Rpc) {
    && p.snap.Some? && p.wrote && p.received == p.stream && p.summary == p.produced
    && (!p.snap.value.hasHunk ==> p.summary.None?)
    && exists at :: 0 <= at <= |p.stream| && p.sent == LiveTrace(p.snap.value, EntryOf(p), at)
  }

  /** The summary goroutine of no call, ended or not, can be blocked in its one send. */
  lemma SendNeverBlocks(g: GraphView, walk0: WalkState, requests: seq<Request>, schedule: seq<Turn>, r: nat)
    requires r < |Runs(g, Initial(walk0, requests), schedule).rpcs|
    ensures
      var p := Runs(g, Initial(walk0, requests), schedule).rpcs[r];
      |p.slot| <= 1 && (p.task.Working? ==> p.slot == [])
  {
    InitialInv(g, walk0, requests);
    RunsKeepInv(g, walk0, requests, Initial(walk0, requests), schedule);
    assert RpcInv(Runs(g, Initial(walk0, requests), schedule).rpcs[r]);
  }

  /** What a replay sends in any run is what a live call for the same step could have sent. */
  lemma EveryReplayIsLive(g: GraphView, walk0: WalkState, requests: seq<Request>, schedule: seq<Turn>, r: nat)
    requires
      var sys := Runs(g, Initial(walk0, requests), schedule);
      r < |sys.rpcs| && sys.rpcs[r].phase.Done? && !sys.rpcs[r].called
    ensures
      var p := Runs(g, Initial(walk0, requests), schedule).rpcs[r];
      p.snap.Some? && exists entry :: CanSendLive(p.request, p.snap.value, entry, p.sent)
  {
    var sys := Runs(g, Initial(walk0, requests), schedule);
    var p := sys.rpcs[r];
    InitialInv(g, walk0, requests);
    RunsKeepInv(g, walk0, requests, Initial(walk0, requests), schedule);
    assert SnapRight(g, p) && ReplaySourced(sys, p);
    var entry :| FullReplay(sys, p, entry);
    var s :| 0 <= s < |sys.rpcs| && Narrated(sys.rpcs[s], p.snap.value.stepId, entry);
    assert SnapRight(g, sys.rpcs[s]);
    ReplayRefinesLive(p.request, p.snap.value, entry);
  }

  // ------------------------------------------------------------------ a replay that differs

  lemma {:induction false} LabelsSnoc(g: GraphView, ids: seq<string>, id: string)
    ensures Labels(g, ids + [id]) == Labels(g, ids) + if id in g then [g[id].labelText] else []
  {
    if ids == [] {
      assert [id][1..] == [];
    } else {
      assert (ids + [id])[1..] == ids[1..] + [id];
      LabelsSnoc(g, ids[1..], id);
    }
  }

  /** The same step gone to twice: the second call is answered with the same step and edges but
      with a longer breadcrumb, so its replay never equals what the first call sent, summary or
      not. */
  lemma RevisitDiffers(g: GraphView, ws: WalkState, id: string, entry: CachedStep, at: nat)
    requires ws.current in g && id in g && at <= |entry.tokens|
    ensures
      var request := Go(JumpTo(id));
      var (ws1, first) := Serve(g, ws, request);
      var (ws2, second) := Serve(g, ws1, request);
      && first.Ok? && second.Ok?
      && first.value.stepId == second.value.stepId == id && first.value.edges == second.value.edges
      && second.value.crumb == first.value.crumb + [g[id].labelText]
      && LiveTrace(first.value, entry, at) != ReplayTrace(second.value, entry)
  {
    hide LiveTrace, ReplayTrace, Labels, Navigable;
    var request := Go(JumpTo(id));
    var (ws1, first) := Serve(g, ws, request);
    var (ws2, second) := Serve(g, ws1, request);
    assert ws1.breadcrumb == ws.breadcrumb + [ws.current] && ws2.breadcrumb == ws1.breadcrumb + [id];
    LabelsSnoc(g, ws1.breadcrumb, id);
    ReplayIdenticalIff(first.value, second.value, entry, at);
  }
}
