/** Whole runs of the walker: the trail is a stack rooted at the entry step. */
module WalkTheory {
  import opened Outcomes
  import opened StepGraph
  import opened Walking

  /** entry is the first step and visited0 the flags set before the run. */
  ghost predicate TrailInv(adj: Adjacency, entry: string, ws: WalkState) {
    && ws.Trail()[0] == entry
    && (forall id <- ws.breadcrumb :: id in adj)
    && (ws.breadcrumb != [] ==> ws.current in adj)
    && (forall i :: 1 <= i < |ws.Trail()| ==> ws.Trail()[i] in ws.visited)
  }

  /** One command pushes its target on the trail, pops the trail, or fails and changes nothing.
      A failing Back that has already popped, which the program's text allows, cannot occur. */
  lemma StepShape(adj: Adjacency, entry: string, ws: WalkState, cmd: Command)
    requires TrailInv(adj, entry, ws)
    ensures
      var m := Apply(adj, ws, cmd);
      && TrailInv(adj, entry, m.state)
      && ws.visited <= m.state.visited
      && (m.outcome.Err? ==> m.state == ws)
      && (m.outcome.Ok? ==> m.state.current == m.outcome.value && m.outcome.value in adj)
      && (m.outcome.Ok? && cmd.GoBack? ==>
          |ws.Trail()| > 1 && m.state.Trail() == ws.Trail()[..|ws.Trail()| - 1])
      && (m.outcome.Ok? && !cmd.GoBack? ==> m.state.Trail() == ws.Trail() + [m.outcome.value])
  {
    var m := Apply(adj, ws, cmd);
    var t := ws.Trail();
    if cmd.GoBack? && ws.breadcrumb != [] {
      var n := |ws.breadcrumb|;
      assert t[n - 1] == ws.breadcrumb[n - 1];
      assert m.state.Trail() == t[..n];
      forall i | 1 <= i < |m.state.Trail()|
        ensures m.state.Trail()[i] in m.state.visited
      {
        assert m.state.Trail()[i] == t[i];
      }
      assert forall id <- m.state.breadcrumb :: id in ws.breadcrumb;
    } else if m.outcome.Ok? {
      assert m.state.breadcrumb == ws.breadcrumb + [ws.current];
      assert m.state.Trail() == t + [m.outcome.value];
    }
  }

  /** Successful moves and successful backs of a run. */
  function Moves(adj: Adjacency, ws: WalkState, cmds: seq<Command>): nat
    decreases cmds
  {
    if cmds == [] then 0
    else
      var m := Apply(adj, ws, cmds[0]);
      (if m.outcome.Ok? && !cmds[0].GoBack? then 1 else 0) + Moves(adj, m.state, cmds[1..])
  }

  function Backs(adj: Adjacency, ws: WalkState, cmds: seq<Command>): nat
    decreases cmds
  {
    if cmds == [] then 0
    else
      var m := Apply(adj, ws, cmds[0]);
      (if m.outcome.Ok? && cmds[0].GoBack? then 1 else 0) + Backs(adj, m.state, cmds[1..])
  }

  /** In every reachable state the trail starts at the entry, stays in the graph, has been
      visited after its first step, and is as long as the moves outnumber the backs. */
  lemma {:induction false} RunKeepsTrail(adj: Adjacency, entry: string, ws: WalkState, cmds: seq<Command>)
    requires TrailInv(adj, entry, ws)
    decreases cmds
    ensures
      var r := Run(adj, ws, cmds);
      && TrailInv(adj, entry, r)
      && ws.visited <= r.visited
      && |r.Trail()| == |ws.Trail()| + Moves(adj, ws, cmds) - Backs(adj, ws, cmds)
  {
    if cmds == [] {
    } else {
      StepShape(adj, entry, ws, cmds[0]);
      RunKeepsTrail(adj, entry, Apply(adj, ws, cmds[0]).state, cmds[1..]);
    }
  }

  lemma TrailFromStart(adj: Adjacency, entry: string, visited: set<string>, cmds: seq<Command>)
    ensures
      var r := Run(adj, Start(entry, visited), cmds);
      && TrailInv(adj, entry, r)
      && |r.Trail()| == 1 + Moves(adj, Start(entry, visited), cmds) - Backs(adj, Start(entry, visited), cmds)
      && (entry in adj ==> forall id <- r.Trail() :: id in adj)
  {
    RunKeepsTrail(adj, entry, Start(entry, visited), cmds);
  }

  /** The run never goes back behind the first depth steps of the trail. */
  ghost predicate StaysAbove(adj: Adjacency, ws: WalkState, cmds: seq<Command>, depth: nat)
    decreases cmds
  {
    |ws.Trail()| >= depth &&
    (cmds != [] ==> StaysAbove(adj, Apply(adj, ws, cmds[0]).state, cmds[1..], depth))
  }

  lemma {:induction false} PrefixKept(adj: Adjacency, entry: string, ws: WalkState, cmds: seq<Command>, depth: nat)
    requires TrailInv(adj, entry, ws) && StaysAbove(adj, ws, cmds, depth)
    decreases cmds
    ensures
      var r := Run(adj, ws, cmds);
      |r.Trail()| >= depth && r.Trail()[..depth] == ws.Trail()[..depth]
  {
    if cmds == [] {
    } else {
      var m := Apply(adj, ws, cmds[0]);
      StepShape(adj, entry, ws, cmds[0]);
      assert m.state.Trail()[..depth] == ws.Trail()[..depth];
      PrefixKept(adj, entry, m.state, cmds[1..], depth);
    }
  }

  /** An excursion of any shape that returns to the depth it left from, without going behind it,
      restores the current step and the whole breadcrumb. */
  lemma ExcursionRestores(adj: Adjacency, entry: string, ws: WalkState, cmds: seq<Command>)
    requires TrailInv(adj, entry, ws) && StaysAbove(adj, ws, cmds, |ws.Trail()|)
    requires Moves(adj, ws, cmds) == Backs(adj, ws, cmds)
    ensures
      var r := Run(adj, ws, cmds);
      r.current == ws.current && r.breadcrumb == ws.breadcrumb
  {
    hide *;
    var r := Run(adj, ws, cmds);
    PrefixKept(adj, entry, ws, cmds, |ws.Trail()|);
    RunKeepsTrail(adj, entry, ws, cmds);
    assert r.Trail() == ws.Trail();
    SameTrail(r, ws);
  }

  lemma SameTrail(a: WalkState, b: WalkState)
    requires a.Trail() == b.Trail()
    ensures a.current == b.current && a.breadcrumb == b.breadcrumb
  {
    var n := |a.breadcrumb|;
    assert a.Trail()[n] == b.Trail()[n];
    assert a.Trail()[..n] == b.Trail()[..n];
  }

  ghost predicate AllMove(adj: Adjacency, ws: WalkState, cmds: seq<Command>)
    decreases cmds
  {
    cmds != [] ==>
      !cmds[0].GoBack? && Apply(adj, ws, cmds[0]).outcome.Ok? &&
      AllMove(adj, Apply(adj, ws, cmds[0]).state, cmds[1..])
  }

  lemma {:induction false} RunConcat(adj: Adjacency, ws: WalkState, a: seq<Command>, b: seq<Command>)
    decreases a
    ensures Run(adj, ws, a + b) == Run(adj, Run(adj, ws, a), b)
  {
    if a == [] {
      assert a + b == b;
    } else {
      assert (a + b)[1..] == a[1..] + b;
      RunConcat(adj, Apply(adj, ws, a[0]).state, a[1..], b);
    }
  }

  /** Any k successful moves are undone exactly by k Backs. */
  lemma {:induction false} BacksUndoMoves(adj: Adjacency, entry: string, ws: WalkState, cmds: seq<Command>)
    requires TrailInv(adj, entry, ws) && AllMove(adj, ws, cmds)
    decreases cmds
    ensures
      var r := Run(adj, ws, cmds + seq(|cmds|, _ => GoBack));
      r.current == ws.current && r.breadcrumb == ws.breadcrumb
  {
    var k := |cmds|;
    if k == 0 {
    } else {
      var m := Apply(adj, ws, cmds[0]);
      StepShape(adj, entry, ws, cmds[0]);
      BacksUndoMoves(adj, entry, m.state, cmds[1..]);
      var inner := cmds[1..] + seq(k - 1, _ => GoBack);
      assert cmds + seq(k, _ => GoBack) == [cmds[0]] + (inner + [GoBack]);
      RunConcat(adj, ws, [cmds[0]], inner + [GoBack]);
      RunConcat(adj, m.state, inner, [GoBack]);
      assert [cmds[0]][1..] == [] && [GoBack][1..] == [];
      var mid := Run(adj, m.state, inner);
      assert mid.current == m.state.current && mid.breadcrumb == m.state.breadcrumb;
      assert m.state.breadcrumb[..|ws.breadcrumb|] == ws.breadcrumb;
    }
  }

  // ------------------------------------------------------------------ where GoTo may go

  /** The program's comment says that GoTo checks for an edge to its target. What it needs is that
      the current step and the target are in the graph. */
  lemma GoToSucceedsIff(adj: Adjacency, ws: WalkState, target: string)
    ensures GoTo(adj, ws, target).outcome.Ok? <==> ws.current in adj && target in adj
  {
  }

  ghost predicate FollowsEdge(adj: Adjacency, ws: WalkState, target: string) {
    ws.current in adj && HasNavigableEdge(adj[ws.current], target)
  }

  /** Two steps without any edge: GoTo leads from one to the other. */
  lemma GoToWithoutEdge()
    ensures
      var adj: Adjacency := map["a" := [], "b" := []];
      var ws := Start("a", {});
      GoTo(adj, ws, "b").outcome == Ok("b") && !FollowsEdge(adj, ws, "b")
  {
  }

  /** The comment is right about a graph if and only if every step has a navigable edge to every
      step, itself included. */
  lemma GoToFollowsEdgesIff(adj: Adjacency)
    ensures
      (forall ws, target :: GoTo(adj, ws, target).outcome.Ok? ==> FollowsEdge(adj, ws, target)) <==>
      (forall u, v :: u in adj && v in adj ==> HasNavigableEdge(adj[u], v))
  {
    if forall ws, target :: GoTo(adj, ws, target).outcome.Ok? ==> FollowsEdge(adj, ws, target) {
      forall u, v | u in adj && v in adj
        ensures HasNavigableEdge(adj[u], v)
      {
        GoToSucceedsIff(adj, Start(u, {}), v);
        assert FollowsEdge(adj, Start(u, {}), v);
      }
    }
  }

  // ------------------------------------------------------------------ what each command does

  ghost predicate Matches(e: StepEdge, edgeLabel: EdgeLabel) {
    e.edgeLabel == edgeLabel && e.navigable
  }

  /** The first navigable edge with the label stands at place i. */
  ghost predicate FirstAt(edges: seq<StepEdge>, edgeLabel: EdgeLabel, i: nat) {
    i < |edges| && Matches(edges[i], edgeLabel) && forall j :: 0 <= j < i ==> !Matches(edges[j], edgeLabel)
  }

  lemma {:induction false} FirstEdgeIs(edges: seq<StepEdge>, edgeLabel: EdgeLabel) returns (i: nat)
    ensures FirstEdge(edges, edgeLabel).Some? ==>
      FirstAt(edges, edgeLabel, i) && FirstEdge(edges, edgeLabel).value == edges[i]
    ensures FirstEdge(edges, edgeLabel).None? ==> forall j :: 0 <= j < |edges| ==> !Matches(edges[j], edgeLabel)
  {
    i := 0;
    if edges != [] && !Matches(edges[0], edgeLabel) {
      var k := FirstEdgeIs(edges[1..], edgeLabel);
      i := k + 1;
      assert forall j :: 1 <= j < |edges| ==> edges[j] == edges[1..][j - 1];
    }
  }

  /** A move along an edge to target: it is pushed on the trail and marked, if it is in the graph. */
  ghost predicate ArrivesAt(adj: Adjacency, ws: WalkState, target: string, m: Move) {
    if target in adj then
      m.state.current == target && m.state.breadcrumb == ws.breadcrumb + [ws.current]
      && m.state.visited == ws.visited + {target} && m.outcome == Ok(target)
    else m.state == ws && m.outcome == Err(TargetMissing)
  }

  /** The move goes along the first navigable edge with the label, and fails for want of one exactly
      when the step has none. */
  ghost predicate FollowsFirst(adj: Adjacency, ws: WalkState, edgeLabel: EdgeLabel, m: Move) {
    if ws.current !in adj then m == Move(ws, Err(CurrentMissing))
    else
      && (forall i: nat :: FirstAt(adj[ws.current], edgeLabel, i) ==>
            ArrivesAt(adj, ws, adj[ws.current][i].targetStepId, m) && m.outcome != Err(NoSuchEdge))
      && ((forall i :: 0 <= i < |adj[ws.current]| ==> !Matches(adj[ws.current][i], edgeLabel)) ==>
            m == Move(ws, Err(NoSuchEdge)))
      && (m.outcome == Err(NoSuchEdge) || exists i: nat :: FirstAt(adj[ws.current], edgeLabel, i))
  }

  /** The move goes to any step of the graph; the errors tell an edge to a missing step from none. */
  ghost predicate JumpsTo(adj: Adjacency, ws: WalkState, target: string, m: Move) {
    if ws.current !in adj then m == Move(ws, Err(CurrentMissing))
    else if target in adj
      || exists i :: 0 <= i < |adj[ws.current]| && adj[ws.current][i].navigable && adj[ws.current][i].targetStepId == target
      then ArrivesAt(adj, ws, target, m)
    else m == Move(ws, Err(NotReachable))
  }

  /** The move pops the trail, and fails at its first step or on a step that is not in the graph. */
  ghost predicate GoesBack(adj: Adjacency, ws: WalkState, m: Move) {
    if ws.breadcrumb == [] then m == Move(ws, Err(AtFirstStep))
    else
      && ws.breadcrumb == m.state.breadcrumb + [m.state.current] && m.state.visited == ws.visited
      && m.outcome == if m.state.current in adj then Ok(m.state.current) else Err(TargetMissing)
  }

  /** Each of the four commands by its effect on the walker. */
  lemma ApplyMeans(adj: Adjacency, ws: WalkState, cmd: Command)
    ensures cmd.GoForward? ==> FollowsFirst(adj, ws, Next, Apply(adj, ws, cmd))
    ensures cmd.Follow? ==> FollowsFirst(adj, ws, cmd.edgeLabel, Apply(adj, ws, cmd))
    ensures cmd.JumpTo? ==> JumpsTo(adj, ws, cmd.stepId, Apply(adj, ws, cmd))
    ensures cmd.GoBack? ==> GoesBack(adj, ws, Apply(adj, ws, cmd))
  {
    hide FollowsFirst;
    match cmd
    case GoForward => FollowMeans(adj, ws, Next);
    case Follow(edgeLabel) => FollowMeans(adj, ws, edgeLabel);
    case JumpTo(target) => GoToMeans(adj, ws, target);
    case GoBack =>
      if ws.breadcrumb != [] {
        var last := |ws.breadcrumb| - 1;
        assert ws.breadcrumb == ws.breadcrumb[..last] + [ws.breadcrumb[last]];
      }
  }

  lemma GoToMeans(adj: Adjacency, ws: WalkState, target: string)
    ensures JumpsTo(adj, ws, target, GoTo(adj, ws, target))
  {
    if ws.current in adj {
      var edges := adj[ws.current];
      assert HasNavigableEdge(edges, target) <==>
        exists i :: 0 <= i < |edges| && edges[i].navigable && edges[i].targetStepId == target;
    }
  }

  lemma FollowMeans(adj: Adjacency, ws: WalkState, edgeLabel: EdgeLabel)
    ensures FollowsFirst(adj, ws, edgeLabel, FollowEdgeLabel(adj, ws, edgeLabel))
  {
    if ws.current in adj {
      var edges := adj[ws.current];
      var i := FirstEdgeIs(edges, edgeLabel);
      if FirstEdge(edges, edgeLabel).Some? {
        hide FirstEdge;
        assert edges[i] in edges;
        assert forall k: nat :: FirstAt(edges, edgeLabel, k) ==> k == i;
      }
    }
  }

  /** out holds the navigable ones among the edges, in their order: those at the given places. */
  ghost predicate NavigableAt(edges: seq<StepEdge>, out: seq<StepEdge>, places: seq<nat>) {
    && |places| == |out|
    && (forall k :: 0 <= k < |places| ==> places[k] < |edges| && edges[places[k]].navigable && out[k] == edges[places[k]])
    && (forall k, l :: 0 <= k < l < |places| ==> places[k] < places[l])
    && (forall i: nat :: i < |edges| && edges[i].navigable ==> i in places)
  }

  lemma {:induction false} NavigableSnoc(edges: seq<StepEdge>, e: StepEdge)
    ensures Navigable(edges + [e]) == Navigable(edges) + if e.navigable then [e] else []
  {
    if edges == [] {
      assert [e][1..] == [];
    } else {
      assert (edges + [e])[1..] == edges[1..] + [e];
      NavigableSnoc(edges[1..], e);
    }
  }

  lemma {:induction false} NavigableIs(edges: seq<StepEdge>) returns (places: seq<nat>)
    ensures NavigableAt(edges, Navigable(edges), places)
  {
    if edges == [] {
      places := [];
    } else {
      hide Navigable;
      var n := |edges| - 1;
      var front := NavigableIs(edges[..n]);
      NavigableSnoc(edges[..n], edges[n]);
      assert edges == edges[..n] + [edges[n]];
      places := front + if edges[n].navigable then [n] else [];
      NavigableMore(edges, Navigable(edges[..n]), front);
    }
  }

  lemma NavigableMore(edges: seq<StepEdge>, out: seq<StepEdge>, places: seq<nat>)
    requires edges != [] && NavigableAt(edges[..|edges| - 1], out, places)
    ensures
      var n := |edges| - 1;
      NavigableAt(edges, out + (if edges[n].navigable then [edges[n]] else []),
                  places + if edges[n].navigable then [n] else [])
  {
    var n := |edges| - 1;
    var all := places + if edges[n].navigable then [n] else [];
    assert forall i: nat :: i < n ==> edges[..n][i] == edges[i];
    forall i: nat | i < |edges| && edges[i].navigable
      ensures i in all
    {
      if i < n {
        assert edges[..n][i].navigable;
      } else {
        assert all[|places|] == n;
      }
    }
  }
}
