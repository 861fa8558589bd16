/** What the critical section answers. */
module ServeTheory {
  import opened Outcomes
  import opened StepGraph
  import opened Walking
  import opened WalkTheory
  import opened Narration
  import opened Navigation
  import NavigationTheory

  /** Requests for walker commands. */
  function Requests(cmds: seq<Command>): (r: seq<Request>)
    ensures |r| == |cmds| && forall i :: 0 <= i < |cmds| ==> r[i] == Go(cmds[i])
  {
    seq(|cmds|, i requires 0 <= i < |cmds| => Go(cmds[i]))
  }

  /** labels are those of the ids that are in the graph, in their order: of the ones at the places. */
  ghost predicate LabelsAt(g: GraphView, ids: seq<string>, labels: seq<string>, places: seq<nat>) {
    && |places| == |labels|
    && (forall k :: 0 <= k < |places| ==>
          places[k] < |ids| && ids[places[k]] in g && labels[k] == g[ids[places[k]]].labelText)
    && (forall k, l :: 0 <= k < l < |places| ==> places[k] < places[l])
    && (forall i: nat :: i < |ids| && ids[i] in g ==> i in places)
  }

  lemma LabelsMore(g: GraphView, ids: seq<string>, labels: seq<string>, places: seq<nat>)
    requires ids != [] && LabelsAt(g, ids[..|ids| - 1], labels, places)
    ensures
      var n := |ids| - 1;
      LabelsAt(g, ids, labels + (if ids[n] in g then [g[ids[n]].labelText] else []),
               places + if ids[n] in g then [n] else [])
  {
    var n := |ids| - 1;
    var all := places + if ids[n] in g then [n] else [];
    assert forall i: nat :: i < n ==> ids[..n][i] == ids[i];
    forall i: nat | i < |ids| && ids[i] in g
      ensures i in all
    {
      if i < n {
        assert ids[..n][i] in g;
      } else {
        assert all[|places|] == n;
      }
    }
  }

  lemma {:induction false} LabelsAre(g: GraphView, ids: seq<string>) returns (places: seq<nat>)
    ensures LabelsAt(g, ids, Labels(g, ids), places)
  {
    if ids == [] {
      places := [];
    } else {
      hide Labels;
      var n := |ids| - 1;
      var front := LabelsAre(g, ids[..n]);
      NavigationTheory.LabelsSnoc(g, ids[..n], ids[n]);
      assert ids == ids[..n] + [ids[n]];
      LabelsMore(g, ids, Labels(g, ids[..n]), front);
      places := front + if ids[n] in g then [n] else [];
    }
  }

  /** snap shows the step at which the walker stands: its ID, whether it is a hunk, its navigable
      edges and the labels of its breadcrumb. */
  ghost predicate Shows(g: GraphView, ws: WalkState, snap: Snapshot) {
    && ws.current in g && snap.stepId == ws.current
    && (snap.hasHunk <==> g[ws.current].hunkSpan.Some?)
    && (exists places :: NavigableAt(g[ws.current].edges, snap.edges, places))
    && (exists places :: LabelsAt(g, ws.breadcrumb, snap.crumb, places))
  }

  /** A command is served by the walker's own operation; the call goes on exactly when that succeeds,
      and what it hands on shows the step reached. Anything else leaves the walker alone. */
  lemma ServeMeans(g: GraphView, ws: WalkState, cmd: Command)
    ensures
      var (after, answer) := Serve(g, ws, Go(cmd));
      var m := Apply(EdgesOf(g), ws, cmd);
      && after == m.state
      && (m.outcome.Ok? ==> answer.Ok? && answer.value.stepId == m.outcome.value && Shows(g, after, answer.value))
      && (m.outcome.Err? ==> answer == Err(NavigationFailed))
  {
    hide NavigableAt, LabelsAt, Navigable, Labels;
    var m := Apply(EdgesOf(g), ws, cmd);
    Arrives(EdgesOf(g), ws, cmd);
    if m.outcome.Ok? {
      var edges := NavigableIs(g[m.state.current].edges);
      var crumb := LabelsAre(g, m.state.breadcrumb);
    }
  }

  lemma Arrives(adj: Adjacency, ws: WalkState, cmd: Command)
    ensures
      var m := Apply(adj, ws, cmd);
      m.outcome.Ok? ==> m.state.current == m.outcome.value && m.outcome.value in adj
  {
  }

  lemma OthersRefused(g: GraphView, ws: WalkState, request: Request)
    requires !request.Go?
    ensures Serve(g, ws, request) == (ws, Err(InvalidRequest))
  {
  }

  /** Served one after the other, walker commands leave the walker where it runs to. */
  lemma {:induction false} ServedRuns(g: GraphView, ws: WalkState, cmds: seq<Command>)
    ensures Fold(g, ws, Requests(cmds)) == Run(EdgesOf(g), ws, cmds)
  {
    hide Serve, Apply;
    if cmds == [] {
    } else {
      var n := |cmds| - 1;
      assert Requests(cmds)[..n] == Requests(cmds[..n]) && Requests(cmds)[n] == Go(cmds[n]);
      ServedRuns(g, ws, cmds[..n]);
      ServeMeans(g, Run(EdgesOf(g), ws, cmds[..n]), cmds[n]);
      assert cmds == cmds[..n] + [cmds[n]];
      RunConcat(EdgesOf(g), ws, cmds[..n], [cmds[n]]);
      assert [cmds[n]][1..] == [];
    }
  }

  /** The answer to the i-th of these requests: Ok exactly when its command succeeds from where the
      earlier ones have led, and then it shows the step reached. */
  lemma ServedAnswer(g: GraphView, ws: WalkState, cmds: seq<Command>, i: nat)
    requires i < |cmds|
    ensures
      var answer := AnswerAt(g, ws, Requests(cmds), i);
      var m := Apply(EdgesOf(g), Run(EdgesOf(g), ws, cmds[..i]), cmds[i]);
      && (m.outcome.Ok? ==>
            answer.Ok? && answer.value.stepId == m.outcome.value
            && Shows(g, Run(EdgesOf(g), ws, cmds[..i + 1]), answer.value))
      && (m.outcome.Err? ==> answer == Err(NavigationFailed))
  {
    hide Serve, Apply, Shows;
    assert Requests(cmds)[..i] == Requests(cmds[..i]);
    ServedRuns(g, ws, cmds[..i]);
    ServeMeans(g, Run(EdgesOf(g), ws, cmds[..i]), cmds[i]);
    assert cmds[..i + 1] == cmds[..i] + [cmds[i]];
    RunConcat(EdgesOf(g), ws, cmds[..i], [cmds[i]]);
    assert [cmds[i]][1..] == [];
  }
}
