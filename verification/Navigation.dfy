/** Any number of concurrent Navigate calls on one session: the walker moves under the session
    lock, the cache is read and written under its own lock, everything else interleaves freely. */
module Navigation {
  import opened Outcomes
  import opened StepGraph
  import opened Walking
  import opened Narration
  import opened NarrationTheory

  type GraphView = map<string, StepData>

  /** log lists the calls in the order in which they held the session lock. */
  datatype System = System(walk: WalkState, cache: map<string, CachedStep>, rpcs: seq<Rpc>, log: seq<nat>)

  datatype Turn = Section(call: nat) | Lookup(call: nat) | Write(call: nat) | Local(call: nat, action: Action)

  function Labels(g: GraphView, ids: seq<string>): seq<string> {
    if ids == [] then []
    else (if ids[0] in g then [g[ids[0]].labelText] else []) + Labels(g, ids[1..])
  }

  /** What a critical section that ends in ws hands on. */
  function SnapshotOf(g: GraphView, ws: WalkState): Snapshot {
    if ws.current in g then
      Snapshot(ws.current, g[ws.current].hunkSpan.Some?, Navigable(g[ws.current].edges), Labels(g, ws.breadcrumb))
    else Snapshot(ws.current, false, [], Labels(g, ws.breadcrumb))
  }

  /** One request against the walker: the new state, and whether the call goes on. */
  function Serve(g: GraphView, ws: WalkState, request: Request): (WalkState, Result<Snapshot, Failure>) {
    match request
    case Go(cmd) =>
      var m := Apply(EdgesOf(g), ws, cmd);
      (m.state, if m.outcome.Ok? then Ok(SnapshotOf(g, m.state)) else Err(NavigationFailed))
    case UnknownDirection => (ws, Err(InvalidRequest))
    case NoDestination => (ws, Err(InvalidRequest))
  }

  function Enter(p: Rpc, answer: Result<Snapshot, Failure>): Rpc {
    match answer
    case Ok(snap) => p.(phase := Located, snap := Some(snap))
    case Err(why) => Fail(p, why)
  }

  /** One step of the whole system; a turn that is not possible is ignored. */
  function TakeTurn(g: GraphView, sys: System, e: Turn): System {
    if e.call >= |sys.rpcs| then sys
    else
      var p := sys.rpcs[e.call];
      match e
      case Section(r) =>
        if p.phase.Waiting? then
          var (walk, answer) := Serve(g, sys.walk, p.request);
          sys.(walk := walk, rpcs := sys.rpcs[r := Enter(p, answer)], log := sys.log + [r])
        else sys
      case Lookup(r) =>
        if p.phase.Located? && p.snap.Some? then
          var id := p.snap.value.stepId;
          sys.(rpcs := sys.rpcs[r := LookUp(p, if id in sys.cache then Some(sys.cache[id]) else None)])
        else sys
      case Write(r) =>
        if p.phase.Drained? && p.snap.Some? then
          sys.(rpcs := sys.rpcs[r := WriteCache(p)], cache := sys.cache[p.snap.value.stepId := EntryOf(p)])
        else sys
      case Local(r, a) => sys.(rpcs := sys.rpcs[r := Act(p, a)])
  }

  /** A run of the system under a schedule. */
  function Runs(g: GraphView, sys: System, schedule: seq<Turn>): System
    decreases schedule
  {
    if schedule == [] then sys else Runs(g, TakeTurn(g, sys, schedule[0]), schedule[1..])
  }

  function Initial(walk: WalkState, requests: seq<Request>): System {
    System(walk, map[], seq(|requests|, i requires 0 <= i < |requests| => NewRpc(requests[i])), [])
  }

  /** The walker after the requests have been served one after the other. */
  function Fold(g: GraphView, ws: WalkState, requests: seq<Request>): WalkState
  {
    if requests == [] then ws
    else Serve(g, Fold(g, ws, requests[..|requests| - 1]), requests[|requests| - 1]).0
  }

  /** The requests in lock order. */
  function InOrder(requests: seq<Request>, log: seq<nat>): (served: seq<Request>)
    ensures |served| == |log|
  {
    seq(|log|, i requires 0 <= i < |log| => if log[i] < |requests| then requests[log[i]] else NoDestination)
  }

  /** What the i-th holder of the lock was answered. */
  function AnswerAt(g: GraphView, walk0: WalkState, served: seq<Request>, i: nat): Result<Snapshot, Failure>
    requires i < |served|
  {
    Serve(g, Fold(g, walk0, served[..i]), served[i]).1
  }
}
