/** Navigate calls on a review session: FORWARD requests are answered with the hunks in order. */
module ReviewNavigation {
  import opened Outcomes
  import opened StepGraph
  import opened Decimals
  import opened Walking
  import opened Narration
  import opened Navigation
  import opened NavigationTheory
  import opened ServeTheory
  import opened ReviewTheory
  import R = ReviewGraph

  function LabelsOf(ps: seq<Placed>): (r: seq<string>)
    ensures |r| == |ps|
  {
    seq(|ps|, i requires 0 <= i < |ps| => ps[i].path + ":" + Signed(ps[i].hunk.newRange.start))
  }

  lemma {:induction false} HunkLabels(ps: seq<Placed>, src: R.Sources, k: nat)
    requires DistinctPlaces(ps) && k <= |ps|
    ensures Labels(R.GraphOf(ps, src), R.IdsOf(ps)[..k]) == LabelsOf(ps[..k])
  {
    hide R.GraphOf, DistinctPlaces, R.IdOf, Signed;
    var ids := R.IdsOf(ps);
    if k == 0 {
    } else {
      hide Labels;
      HunkLabels(ps, src, k - 1);
      HunkOnWire(ps, src, k - 1);
      assert ids[..k] == ids[..k - 1] + [ids[k - 1]];
      LabelsSnoc(R.GraphOf(ps, src), ids[..k - 1], ids[k - 1]);
      assert LabelsOf(ps[..k]) == LabelsOf(ps[..k - 1]) + [ps[k - 1].path + ":" + Signed(ps[k - 1].hunk.newRange.start)];
    }
  }

  /** snap shows hunk k: its step, its link to the next hunk, and the hunks before it as breadcrumb. */
  ghost predicate ShowsHunk(ps: seq<Placed>, k: nat, snap: Snapshot)
    requires k < |ps|
  {
    && snap.stepId == R.IdsOf(ps)[k] && snap.hasHunk && snap.crumb == LabelsOf(ps[..k])
    && snap.edges == if k + 1 < |ps| then [NextEdge(R.IdsOf(ps)[k + 1])] else []
  }

  /** ws is the walk along ids that has come to place k. */
  ghost predicate WalkedTo(ids: seq<string>, k: nat, ws: WalkState) {
    k < |ids| && ws.current == ids[k] && ws.breadcrumb == ids[..k]
  }

  lemma TrailEnds(ids: seq<string>, k: nat, ws: WalkState)
    requires k < |ids| && ws.Trail() == [ids[0]] + ids[1..k + 1]
    ensures WalkedTo(ids, k, ws)
  {
    assert [ids[0]] + ids[1..k + 1] == ids[..k + 1];
    assert ws.Trail()[..k] == ws.breadcrumb && ws.Trail()[k] == ws.current;
  }

  lemma WalkReaches(adj: Adjacency, ids: seq<string>, visited: set<string>, k: nat)
    requires NextChain(adj, ids) && k < |ids|
    ensures WalkedTo(ids, k, Run(adj, Start(ids[0], visited), Forwards(k)))
  {
    hide NextChain, Run, Forwards, WalkedTo;
    WalkAlong(adj, ids, Start(ids[0], visited), 0, k);
    TrailEnds(ids, k, Run(adj, Start(ids[0], visited), Forwards(k)));
  }

  lemma {:induction false} WalkStays(adj: Adjacency, ids: seq<string>, visited: set<string>, k: nat)
    requires NextChain(adj, ids) && 0 < |ids| <= k + 1
    ensures WalkedTo(ids, |ids| - 1, Run(adj, Start(ids[0], visited), Forwards(k)))
    decreases k
  {
    hide NextChain, Run, Forwards, Forward;
    if k + 1 == |ids| {
      WalkReaches(adj, ids, visited, k);
    } else {
      WalkStays(adj, ids, visited, k - 1);
      ForwardsSnoc(adj, Start(ids[0], visited), k - 1);
      ForwardAtEnd(adj, ids, Run(adj, Start(ids[0], visited), Forwards(k - 1)));
    }
  }

  /** The walker after k Forwards: at hunk k, or at the last one. */
  lemma ForwardState(ps: seq<Placed>, src: R.Sources, visited: set<string>, k: nat)
    requires DistinctPlaces(ps) && ps != []
    ensures
      WalkedTo(R.IdsOf(ps), if k < |ps| then k else |ps| - 1,
               Run(EdgesOf(R.GraphOf(ps, src)), Start(R.EntryOf(ps), visited), Forwards(k)))
  {
    hide R.GraphOf, R.IdOf, DistinctPlaces, Run, Forward, Forwards, NextChain, WalkedTo;
    var adj, ids := EdgesOf(R.GraphOf(ps, src)), R.IdsOf(ps);
    IdsDistinctIff(ps);
    HunksChained(ps, src);
    if k < |ps| {
      WalkReaches(adj, ids, visited, k);
    } else {
      WalkStays(adj, ids, visited, k);
    }
  }

  lemma ServeForward(g: GraphView, ws: WalkState)
    ensures
      var m := Forward(EdgesOf(g), ws);
      && (m.outcome.Err? ==> Serve(g, ws, Go(GoForward)) == (m.state, Err(NavigationFailed)))
      && (m.outcome.Ok? ==> Serve(g, ws, Go(GoForward)) == (m.state, Ok(SnapshotOf(g, m.state))))
  {
  }

  lemma AtHunk(ps: seq<Placed>, src: R.Sources, k: nat, ws: WalkState)
    requires DistinctPlaces(ps) && k < |ps| && ws.current == R.IdsOf(ps)[k] && ws.breadcrumb == R.IdsOf(ps)[..k]
    ensures ShowsHunk(ps, k, SnapshotOf(R.GraphOf(ps, src), ws))
  {
    hide R.GraphOf, R.IdOf, DistinctPlaces, Labels, SpanShows;
    HunkOnWire(ps, src, k);
    HunkLabels(ps, src, k);
    OneNavigable(R.IdsOf(ps), k);
    assert EdgesOf(R.GraphOf(ps, src))[ws.current] == LinkAfter(R.IdsOf(ps), k);
    assert R.GraphOf(ps, src)[ws.current].hunkSpan.Some?;
  }

  lemma OneNavigable(ids: seq<string>, k: nat)
    ensures Navigable(LinkAfter(ids, k)) == LinkAfter(ids, k)
  {
    assert k + 1 < |ids| ==> [NextEdge(ids[k + 1])][1..] == [];
  }

  /** On a review with distinct places, the i-th of any number of FORWARD requests is answered with
      hunk i + 1, and every one after the last hunk is refused. */
  lemma ForwardRequests(ps: seq<Placed>, src: R.Sources, visited: set<string>, n: nat, i: nat)
    requires DistinctPlaces(ps) && ps != [] && i < n
    ensures
      var answer := AnswerAt(R.GraphOf(ps, src), Start(R.EntryOf(ps), visited), Requests(Forwards(n)), i);
      && (i + 1 < |ps| ==> answer.Ok? && ShowsHunk(ps, i + 1, answer.value))
      && (i + 1 >= |ps| ==> answer == Err(NavigationFailed))
  {
    hide R.GraphOf, R.IdOf, DistinctPlaces, Run, Forward, Serve, SnapshotOf, ShowsHunk, Fold;
    var g, start := R.GraphOf(ps, src), Start(R.EntryOf(ps), visited);
    var adj := EdgesOf(g);
    assert Requests(Forwards(n))[..i] == Requests(Forwards(i));
    ServedRuns(g, start, Forwards(i));
    var ws := Run(adj, start, Forwards(i));
    ServeForward(g, ws);
    ForwardState(ps, src, visited, i);
    ForwardState(ps, src, visited, i + 1);
    ForwardsSnoc(adj, start, i);
    IdsDistinctIff(ps);
    HunksChained(ps, src);
    if i + 1 < |ps| {
      ChainLink(adj, R.IdsOf(ps), i);
      ForwardOnce(adj, ws, R.IdsOf(ps)[i + 1]);
      AtHunk(ps, src, i + 1, Forward(adj, ws).state);
    } else {
      ForwardAtEnd(adj, R.IdsOf(ps), ws);
    }
  }

  /** Any number of concurrent FORWARD calls on a review session, under any schedule: the call that
      held the session lock as the i-th completes, if it does, with hunk i + 1. */
  lemma ForwardCompletes(ps: seq<Placed>, src: R.Sources, visited: set<string>, n: nat, schedule: seq<Turn>, r: nat, k: nat)
    requires DistinctPlaces(ps) && ps != []
    requires
      var sys := Runs(R.GraphOf(ps, src), Initial(Start(R.EntryOf(ps), visited), Requests(Forwards(n))), schedule);
      r < |sys.rpcs| && k < |sys.rpcs[r].sent| && sys.rpcs[r].sent[k].Complete?
    ensures
      var sys := Runs(R.GraphOf(ps, src), Initial(Start(R.EntryOf(ps), visited), Requests(Forwards(n))), schedule);
      exists i :: 0 <= i < |sys.log| && sys.log[i] == r && i + 1 < |ps|
        && sys.rpcs[r].sent[k].stepId == R.IdsOf(ps)[i + 1] && sys.rpcs[r].sent[k].crumb == LabelsOf(ps[..i + 1])
  {
    hide R.GraphOf, R.IdOf, DistinctPlaces, Runs, AnswerAt, Fold;
    var g, start, requests := R.GraphOf(ps, src), Start(R.EntryOf(ps), visited), Requests(Forwards(n));
    var sys := Runs(g, Initial(start, requests), schedule);
    CompleteIsOwn(g, start, requests, schedule, r, k);
    WalkerIsSequential(g, start, requests, schedule);
    var e := sys.rpcs[r].sent[k];
    var i :| FromSection(g, start, requests, sys.log, r, i, e);
    assert InOrder(requests, sys.log) == Requests(Forwards(|sys.log|));
    ForwardRequests(ps, src, visited, |sys.log|, i);
  }
}
