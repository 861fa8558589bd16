/** Navigation over a fixed graph as a state machine: what GoTo, Back, Forward and
    FollowEdgeLabel do to the current step, the breadcrumb and the visited flags. */
module Walking {
  import opened Outcomes
  import opened StepGraph

  datatype NavError = CurrentMissing | NotReachable | TargetMissing | AtFirstStep | NoSuchEdge

  datatype WalkState = WalkState(current: string, breadcrumb: seq<string>, visited: set<string>) {
    /** The way back to the first step, the current step included. */
    function Trail(): seq<string> {
      breadcrumb + [current]
    }
  }

  datatype Move = Move(state: WalkState, outcome: Result<string, NavError>)

  predicate HasNavigableEdge(edges: seq<StepEdge>, target: string) {
    exists e <- edges :: e.targetStepId == target && e.navigable
  }

  function GoTo(adj: Adjacency, ws: WalkState, target: string): Move {
    if ws.current !in adj then Move(ws, Err(CurrentMissing))
    else if target !in adj then
      Move(ws, Err(if HasNavigableEdge(adj[ws.current], target) then TargetMissing else NotReachable))
    else
      Move(WalkState(target, ws.breadcrumb + [ws.current], ws.visited + {target}), Ok(target))
  }

  function Back(adj: Adjacency, ws: WalkState): Move {
    if ws.breadcrumb == [] then Move(ws, Err(AtFirstStep))
    else
      var last := |ws.breadcrumb| - 1;
      var prev := ws.breadcrumb[last];
      Move(WalkState(prev, ws.breadcrumb[..last], ws.visited), if prev in adj then Ok(prev) else Err(TargetMissing))
  }

  /** The first navigable edge with the given label. */
  function FirstEdge(edges: seq<StepEdge>, edgeLabel: EdgeLabel): Option<StepEdge> {
    if edges == [] then None
    else if edges[0].edgeLabel == edgeLabel && edges[0].navigable then Some(edges[0])
    else FirstEdge(edges[1..], edgeLabel)
  }

  function FollowEdgeLabel(adj: Adjacency, ws: WalkState, edgeLabel: EdgeLabel): Move {
    if ws.current !in adj then Move(ws, Err(CurrentMissing))
    else
      match FirstEdge(adj[ws.current], edgeLabel)
      case Some(e) => GoTo(adj, ws, e.targetStepId)
      case None => Move(ws, Err(NoSuchEdge))
  }

  function Forward(adj: Adjacency, ws: WalkState): Move {
    FollowEdgeLabel(adj, ws, Next)
  }

  function Navigable(edges: seq<StepEdge>): seq<StepEdge> {
    if edges == [] then []
    else (if edges[0].navigable then [edges[0]] else []) + Navigable(edges[1..])
  }

  datatype Command = GoForward | GoBack | JumpTo(stepId: string) | Follow(edgeLabel: EdgeLabel)

  function Apply(adj: Adjacency, ws: WalkState, cmd: Command): Move {
    match cmd
    case GoForward => Forward(adj, ws)
    case GoBack => Back(adj, ws)
    case JumpTo(id) => GoTo(adj, ws, id)
    case Follow(l) => FollowEdgeLabel(adj, ws, l)
  }

  /** The state after a run of commands; a failed command is answered with its error and the
      run goes on. */
  function Run(adj: Adjacency, ws: WalkState, cmds: seq<Command>): WalkState
    decreases cmds
  {
    if cmds == [] then ws else Run(adj, Apply(adj, ws, cmds[0]).state, cmds[1..])
  }

  function Start(entry: string, visited: set<string>): WalkState {
    WalkState(entry, [], visited)
  }
}
