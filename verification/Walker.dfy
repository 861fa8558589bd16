/** The walker object: the program's form of the machine in Walking.dfy. */
module WalkerObject {
  import opened Outcomes
  import opened StepGraph
  import W = Walking

  class Walker {
    const g: Graph
    var current: string
    var breadcrumb: seq<string>

    ghost function State(): W.WalkState
      reads this, g, g.steps.Values
    {
      W.WalkState(current, breadcrumb, g.VisitedIds())
    }

    constructor (g: Graph)
      ensures this.g == g && State() == W.Start(g.entryID, g.VisitedIds())
    {
      this.g := g;
      current, breadcrumb := g.entryID, [];
    }

    method GoTo(targetID: string) returns (r: Result<Step, W.NavError>)
      requires g.Valid()
      modifies this, g.steps.Values`visited
      ensures g.Valid() && g.Arcs() == old(g.Arcs())
      ensures State() == W.GoTo(g.Arcs(), old(State()), targetID).state
      ensures W.GoTo(g.Arcs(), old(State()), targetID).outcome == Answer(r)
      ensures r.Ok? ==> targetID in g.steps && r.value == g.steps[targetID]
    {
      var cur := g.StepAt(current);
      if cur.None? {
        return Err(W.CurrentMissing);
      }
      var edges := cur.value.edges;
      var found := false;
      for i := 0 to |edges|
        invariant !found
        invariant !W.HasNavigableEdge(edges[..i], targetID)
      {
        if edges[i].targetStepId == targetID && edges[i].navigable {
          found := true;
          break;
        }
      }
      assert edges[..|edges|] == edges;
      assert found <==> W.HasNavigableEdge(edges, targetID);
      var target := g.StepAt(targetID);
      if !found && target.None? {
        return Err(W.NotReachable);
      }
      if target.None? {
        return Err(W.TargetMissing);
      }
      breadcrumb := breadcrumb + [current];
      current := targetID;
      target.value.visited := true;
      assert g.VisitedIds() == old(g.VisitedIds()) + {targetID};
      return Ok(target.value);
    }

    method Back() returns (r: Result<Step, W.NavError>)
      requires g.Valid()
      modifies this
      ensures State() == W.Back(g.Arcs(), old(State())).state
      ensures W.Back(g.Arcs(), old(State())).outcome == Answer(r)
      ensures r.Ok? ==> current in g.steps && r.value == g.steps[current]
    {
      if |breadcrumb| == 0 {
        return Err(W.AtFirstStep);
      }
      var prev := breadcrumb[|breadcrumb| - 1];
      breadcrumb := breadcrumb[..|breadcrumb| - 1];
      current := prev;
      var step := g.StepAt(prev);
      if step.None? {
        return Err(W.TargetMissing);
      }
      return Ok(step.value);
    }

    method Forward() returns (r: Result<Step, W.NavError>)
      requires g.Valid()
      modifies this, g.steps.Values`visited
      ensures g.Valid() && g.Arcs() == old(g.Arcs())
      ensures State() == W.Forward(g.Arcs(), old(State())).state
      ensures W.Forward(g.Arcs(), old(State())).outcome == Answer(r)
      ensures r.Ok? ==> current in g.steps && r.value == g.steps[current]
    {
      r := FollowEdgeLabel(Next);
    }

    method FollowEdgeLabel(edgeLabel: EdgeLabel) returns (r: Result<Step, W.NavError>)
      requires g.Valid()
      modifies this, g.steps.Values`visited
      ensures g.Valid() && g.Arcs() == old(g.Arcs())
      ensures State() == W.FollowEdgeLabel(g.Arcs(), old(State()), edgeLabel).state
      ensures W.FollowEdgeLabel(g.Arcs(), old(State()), edgeLabel).outcome == Answer(r)
      ensures r.Ok? ==> current in g.steps && r.value == g.steps[current]
    {
      var cur := g.StepAt(current);
      if cur.None? {
        return Err(W.CurrentMissing);
      }
      var edges := cur.value.edges;
      assert edges[0..] == edges;
      for i := 0 to |edges|
        invariant W.FirstEdge(edges, edgeLabel) == W.FirstEdge(edges[i..], edgeLabel)
      {
        assert edges[i..][1..] == edges[i + 1..];
        if edges[i].edgeLabel == edgeLabel && edges[i].navigable {
          r := GoTo(edges[i].targetStepId);
          return;
        }
      }
      return Err(W.NoSuchEdge);
    }

    method NavigableEdges() returns (out: seq<StepEdge>)
      ensures out == if current in g.steps then W.Navigable(g.steps[current].edges) else []
    {
      var cur := g.StepAt(current);
      if cur.None? {
        return [];
      }
      var edges := cur.value.edges;
      out := [];
      assert edges[0..] == edges;
      for i := 0 to |edges|
        invariant out + W.Navigable(edges[i..]) == W.Navigable(edges)
      {
        assert edges[i..][1..] == edges[i + 1..];
        if edges[i].navigable {
          out := out + [edges[i]];
        }
      }
    }
  }

  /** The program returns the step object; the machine names it by its ID. */
  function Answer(r: Result<Step, W.NavError>): Result<string, W.NavError> {
    match r
    case Ok(s) => Ok(s.id)
    case Err(e) => Err(e)
  }
}
