/** Which IDs on cycles every search reports. */
module CycleEscapes {
  import opened StepGraph
  import opened Cycles
  import opened CycleTheory

  /** The same steps with the same edges, each step's edges in any order. */
  ghost predicate Reordered(adj: Adjacency, other: Adjacency) {
    adj.Keys == other.Keys && forall id <- adj :: multiset(adj[id]) == multiset(other[id])
  }

  /** Every search, in every order of roots and edges, reports x. */
  ghost predicate AlwaysReported(adj: Adjacency, x: string) {
    forall other, roots :: Reordered(adj, other) && Enumerates(roots, other) ==> x in Detect(other, roots)
  }

  ghost function Elems(p: seq<string>): set<string> {
    set id | id in p
  }

  /** p is a simple path to x, x has no arc back to it, and from x no step with an arc to x can be
      reached around it. */
  ghost predicate Escape(adj: Adjacency, p: seq<string>, x: string) {
    && IsWalk(adj, p) && Distinct(p) && p[|p| - 1] == x
    && (forall y :: y in p ==> !Arc(adj, x, y))
    && (forall u :: Arc(adj, u, x) ==> !Around(adj, x, u, Elems(p)))
  }

  // ------------------------------------------------------------------ reordering keeps arcs

  lemma SameArcs(adj: Adjacency, other: Adjacency)
    requires Reordered(adj, other)
    ensures forall u, v :: Arc(adj, u, v) <==> Arc(other, u, v)
  {
    forall u, v
      ensures Arc(adj, u, v) <==> Arc(other, u, v)
    {
      if u in adj {
        assert multiset(adj[u]) == multiset(other[u]);
        if Arc(adj, u, v) {
          ArcKept(adj, other, u, v);
        } else if Arc(other, u, v) {
          ArcKept(other, adj, u, v);
        }
      }
    }
  }

  lemma ArcKept(adj: Adjacency, other: Adjacency, u: string, v: string)
    requires u in adj && u in other && multiset(adj[u]) == multiset(other[u]) && Arc(adj, u, v)
    ensures Arc(other, u, v)
  {
    var i :| 0 <= i < |adj[u]| && adj[u][i].targetStepId == v;
    assert adj[u][i] in multiset(adj[u]);
    assert adj[u][i] in multiset(other[u]);
    var j :| 0 <= j < |other[u]| && other[u][j] == adj[u][i];
  }

  lemma WalksKept(adj: Adjacency, other: Adjacency, p: seq<string>)
    requires forall u, v :: Arc(adj, u, v) ==> Arc(other, u, v)
    requires IsWalk(adj, p)
    ensures IsWalk(other, p)
  {
    forall i: nat | i + 1 < |p|
      ensures Link(other, p, i)
    {
      assert Link(adj, p, i);
    }
  }

  lemma AroundKept(adj: Adjacency, other: Adjacency, u: string, v: string, avoid: set<string>)
    requires forall a, b :: Arc(adj, a, b) ==> Arc(other, a, b)
    requires Around(adj, u, v, avoid)
    ensures Around(other, u, v, avoid)
  {
    var w :| AroundBy(adj, w, u, v, avoid);
    WalksKept(adj, other, w);
    assert AroundBy(other, w, u, v, avoid);
  }

  lemma EscapeKept(adj: Adjacency, other: Adjacency, p: seq<string>, x: string)
    requires forall u, v :: Arc(adj, u, v) <==> Arc(other, u, v)
    requires Escape(adj, p, x)
    ensures Escape(other, p, x)
  {
    WalksKept(adj, other, p);
    forall u | Arc(other, u, x)
      ensures !Around(other, x, u, Elems(p))
    {
      if Around(other, x, u, Elems(p)) {
        AroundKept(other, adj, x, u, Elems(p));
      }
    }
  }

  // ------------------------------------------------------------------ the path on which x is entered

  /** x's visit ended k-th; p was the active path when it began: nothing else of p has ended yet, and
      what has ended leads only to what has ended or to p. */
  ghost predicate EnteredOn(adj: Adjacency, finished: seq<string>, p: seq<string>, x: string, k: nat) {
    && k < |finished| && finished[k] == x
    && IsWalk(adj, p) && Distinct(p) && p[|p| - 1] == x
    && (forall y :: y in p && y != x ==> y !in finished[..k + 1])
    && (forall u, v :: u in finished[..k + 1] && Arc(adj, u, v) ==> v in finished[..k + 1] || v in p)
  }

  lemma EnteredStays(adj: Adjacency, a: seq<string>, b: seq<string>, p: seq<string>, x: string, k: nat)
    requires EnteredOn(adj, a, p, x, k) && a <= b
    ensures EnteredOn(adj, b, p, x, k)
  {
    assert a[..k + 1] == b[..k + 1];
  }

  lemma VisitedNow(adj: Adjacency, x: string, st: SearchState, path: seq<string>)
    requires Inv(adj, st, path) && x in Universe(adj) && x !in st.visited
    requires path == [] || Arc(adj, path[|path| - 1], x)
    ensures
      var r := Visit(adj, x, st);
      r.finished != [] && EnteredOn(adj, r.finished, path + [x], x, |r.finished| - 1)
  {
    hide Inv, Universe, VisitEdges, IsWalk;
    var r := Visit(adj, x, st);
    VisitKeepsInv(adj, x, st, path);
    PathExtends(adj, x, st, path);
    var f := r.finished;
    assert f[|f| - 1] == x && f[..|f|] == f;
    forall y | y in path
      ensures y !in f
    {
      PathNotFinished(adj, r, path, y);
    }
    forall u, v | u in f && Arc(adj, u, v)
      ensures v in f || v in path + [x]
    {
      FinishedLeadsToVisited(adj, r, path, u, v);
      VisitedIsEither(adj, r, path, v);
    }
  }

  lemma PathExtends(adj: Adjacency, x: string, st: SearchState, path: seq<string>)
    requires Inv(adj, st, path) && x !in st.visited
    requires path == [] || Arc(adj, path[|path| - 1], x)
    ensures IsWalk(adj, path + [x]) && Distinct(path + [x])
  {
    EnterKeepsInv(adj, x, st, path);
  }

  lemma PathNotFinished(adj: Adjacency, st: SearchState, path: seq<string>, y: string)
    requires Inv(adj, st, path) && y in path
    ensures y !in st.finished
  {
  }

  lemma VisitedIsEither(adj: Adjacency, st: SearchState, path: seq<string>, y: string)
    requires Inv(adj, st, path) && y in st.visited
    ensures y in path || y in st.finished
  {
  }

  lemma {:induction false} VisitEnters(adj: Adjacency, id: string, st: SearchState, path: seq<string>, x: string)
    returns (p: seq<string>, k: nat)
    requires Inv(adj, st, path) && id in Universe(adj) && id !in st.visited
    requires path == [] || Arc(adj, path[|path| - 1], id)
    requires x !in st.visited && x in Visit(adj, id, st).visited
    decreases Universe(adj) - st.visited, 0
    ensures EnteredOn(adj, Visit(adj, id, st).finished, p, x, k)
  {
    if x == id {
      VisitedNow(adj, x, st, path);
      p, k := path + [x], |Visit(adj, id, st).finished| - 1;
    } else {
      var entered := st.(visited := st.visited + {id}, inStack := st.inStack + {id});
      EnterKeepsInv(adj, id, st, path);
      assert id in Universe(adj) - st.visited && id !in Universe(adj) - entered.visited;
      assert adj[id][0..] == adj[id];
      p, k := EdgesEnter(adj, id, 0, entered, path + [id], x);
      var explored := VisitEdges(adj, id, adj[id], entered);
      EnteredStays(adj, explored.finished, explored.finished + [id], p, x, k);
    }
  }

  lemma {:induction false} EdgesEnter(adj: Adjacency, id: string, j: nat, st: SearchState, path: seq<string>, x: string)
    returns (p: seq<string>, k: nat)
    requires Inv(adj, st, path) && path != [] && path[|path| - 1] == id
    requires id in adj && j <= |adj[id]| && HandledUpTo(adj, st, id, j)
    requires forall e <- adj[id][j..] :: e.targetStepId in Universe(adj)
    requires x !in st.visited && x in VisitEdges(adj, id, adj[id][j..], st).visited
    decreases Universe(adj) - st.visited, 2 + |adj[id]| - j
    ensures EnteredOn(adj, VisitEdges(adj, id, adj[id][j..], st).finished, p, x, k)
  {
    hide EnteredOn, Inv, Universe;
    var target := adj[id][j].targetStepId;
    var st1 := VisitEdge(adj, id, target, st);
    VisitEdgeKeepsInv(adj, id, target, st, path);
    EdgesInUniverse(adj, id);
    assert adj[id][j..][0] == adj[id][j] && adj[id][j..][1..] == adj[id][j + 1..];
    assert Universe(adj) - st1.visited <= Universe(adj) - st.visited;
    HandledMonotone(adj, st, st1, id, j);
    if x in st1.visited {
      p, k := VisitEnters(adj, target, st, path, x);
      VisitEdgesKeepsInv(adj, id, j + 1, st1, path);
      EnteredStays(adj, st1.finished, VisitEdges(adj, id, adj[id][j + 1..], st1).finished, p, x, k);
    } else {
      p, k := EdgesEnter(adj, id, j + 1, st1, path, x);
    }
  }

  lemma EdgesInUniverse(adj: Adjacency, id: string)
    requires id in adj
    ensures forall e <- adj[id] :: e.targetStepId in Universe(adj)
  {
  }

  lemma {:induction false} RootsEnter(adj: Adjacency, roots: seq<string>, st: SearchState, x: string)
    returns (p: seq<string>, k: nat)
    requires Inv(adj, st, []) && forall id <- roots :: id in adj
    requires x !in st.visited && x in VisitRoots(adj, roots, st).visited
    ensures EnteredOn(adj, VisitRoots(adj, roots, st).finished, p, x, k)
  {
    hide EnteredOn, Inv;
    var st1 := if roots[0] in st.visited then st else Visit(adj, roots[0], st);
    if roots[0] !in st.visited {
      VisitKeepsInv(adj, roots[0], st, []);
    }
    if x in st1.visited {
      p, k := VisitEnters(adj, roots[0], st, [], x);
      VisitRootsKeepsInv(adj, roots[1..], st1);
      EnteredStays(adj, st1.finished, VisitRoots(adj, roots, st).finished, p, x, k);
    } else {
      p, k := RootsEnter(adj, roots[1..], st1, x);
    }
  }

  /** What ended before x leads around the path only to what ended before x. */
  lemma {:induction false} StaysFinished(adj: Adjacency, f: seq<string>, p: seq<string>, x: string, k: nat, w: seq<string>, u: string)
    requires EnteredOn(adj, f, p, x, k) && AroundBy(adj, w, x, u, Elems(p))
    decreases |w|
    ensures u in f[..k + 1]
  {
    if |w| == 1 {
      assert f[..k + 1][k] == x;
    } else {
      var front := w[..|w| - 1];
      assert Link(adj, w, |w| - 2);
      forall i: nat | i + 1 < |front|
        ensures Link(adj, front, i)
      {
        assert Link(adj, w, i);
      }
      assert AroundBy(adj, front, x, front[|front| - 1], Elems(p));
      StaysFinished(adj, f, p, x, k, front, front[|front| - 1]);
      assert u !in Elems(p);
    }
  }

  /** A search that leaves x out has entered it on a path of escape. */
  lemma UnreportedEscapes(adj: Adjacency, roots: seq<string>, x: string) returns (p: seq<string>)
    requires Enumerates(roots, adj) && x in adj && x !in Detect(adj, roots)
    ensures Escape(adj, p, x)
  {
    assert Inv(adj, FRESH, []);
    VisitRootsKeepsInv(adj, roots, FRESH);
    var r := VisitRoots(adj, roots, FRESH);
    var f := r.finished;
    var k;
    p, k := RootsEnter(adj, roots, FRESH, x);
    forall y | y in p
      ensures !Arc(adj, x, y)
    {
      if Arc(adj, x, y) {
        FinishedLeadsToVisited(adj, r, [], x, y);
        var j :| 0 <= j < |f| && f[j] == y;
        EndsLater(adj, f, p, x, k, y, j);
        BackArcRecorded(adj, r, x, y, k, j);
      }
    }
    forall u | Arc(adj, u, x)
      ensures !Around(adj, x, u, Elems(p))
    {
      if w :| AroundBy(adj, w, x, u, Elems(p)) {
        StaysFinished(adj, f, p, x, k, w, u);
        var i :| 0 <= i < k + 1 && f[..k + 1][i] == u;
        BackArcRecorded(adj, r, u, x, i, k);
      }
    }
  }

  lemma EndsLater(adj: Adjacency, f: seq<string>, p: seq<string>, x: string, k: nat, y: string, j: nat)
    requires EnteredOn(adj, f, p, x, k) && y in p && j < |f| && f[j] == y && Distinct(f)
    ensures k <= j
  {
    assert forall i :: 0 <= i < k + 1 ==> f[i] == f[..k + 1][i] && f[i] in f[..k + 1];
  }

  // ------------------------------------------------------------------ a search along an escape

  /** The place of the first edge to target. */
  function EdgeTo(edges: seq<StepEdge>, target: string): (i: nat)
    ensures i <= |edges| && (i < |edges| ==> edges[i].targetStepId == target)
    ensures (exists e <- edges :: e.targetStepId == target) ==> i < |edges|
  {
    if edges == [] || edges[0].targetStepId == target then 0 else 1 + EdgeTo(edges[1..], target)
  }

  /** The edges with the one to target, if there is one, in front. */
  function Fronted(edges: seq<StepEdge>, target: string): seq<StepEdge> {
    var i := EdgeTo(edges, target);
    if i < |edges| then [edges[i]] + edges[..i] + edges[i + 1..] else edges
  }

  lemma FrontedKeeps(edges: seq<StepEdge>, target: string)
    ensures multiset(Fronted(edges, target)) == multiset(edges)
  {
    var i := EdgeTo(edges, target);
    if i < |edges| {
      assert edges == edges[..i] + [edges[i]] + edges[i + 1..];
    }
  }

  /** The place of id on the path. */
  function PlaceIn(p: seq<string>, id: string): (i: nat)
    ensures i <= |p| && (i < |p| ==> p[i] == id) && (id in p ==> i < |p|)
  {
    if p == [] || p[0] == id then 0 else 1 + PlaceIn(p[1..], id)
  }

  /** The graph with the arcs of the path taken first. */
  function Along(adj: Adjacency, p: seq<string>): Adjacency {
    map id | id in adj :: if PlaceIn(p, id) + 1 < |p| then Fronted(adj[id], p[PlaceIn(p, id) + 1]) else adj[id]
  }

  lemma AlongReorders(adj: Adjacency, p: seq<string>)
    ensures Reordered(adj, Along(adj, p))
  {
    forall id | id in adj
      ensures multiset(adj[id]) == multiset(Along(adj, p)[id])
    {
      if PlaceIn(p, id) + 1 < |p| {
        FrontedKeeps(adj[id], p[PlaceIn(p, id) + 1]);
      }
    }
  }

  /** The first edge of each step of the path leads to the next one. */
  ghost predicate Leads(adj: Adjacency, p: seq<string>) {
    forall i :: 0 <= i && i + 1 < |p| ==> LeadsAt(adj, p, i)
  }

  ghost predicate LeadsAt(adj: Adjacency, p: seq<string>, i: nat)
    requires i + 1 < |p|
  {
    p[i] in adj && adj[p[i]] != [] && adj[p[i]][0].targetStepId == p[i + 1]
  }

  lemma AlongLeads(adj: Adjacency, p: seq<string>)
    requires IsWalk(adj, p) && Distinct(p)
    ensures Leads(Along(adj, p), p)
  {
    forall i | 0 <= i && i + 1 < |p|
      ensures LeadsAt(Along(adj, p), p, i)
    {
      assert Link(adj, p, i);
      var at := PlaceIn(p, p[i]);
      assert p[at] == p[i] && at == i;
      var e :| 0 <= e < |adj[p[i]]| && adj[p[i]][e].targetStepId == p[i + 1];
      assert adj[p[i]][e] in adj[p[i]];
    }
  }

  /** The state of the search that has gone down the first i steps of the path. */
  ghost function Down(p: seq<string>, i: nat): SearchState
    requires i <= |p|
  {
    SearchState(Elems(p[..i]), Elems(p[..i]), [], [])
  }

  lemma DownInv(adj: Adjacency, p: seq<string>, i: nat)
    requires IsWalk(adj, p) && Distinct(p) && i < |p|
    ensures Inv(adj, Down(p, i), p[..i]) && p[i] !in Down(p, i).visited
    ensures i > 0 ==> Arc(adj, p[..i][i - 1], p[i])
  {
    forall j: nat | j + 1 < i
      ensures Link(adj, p[..i], j)
    {
      assert Link(adj, p, j);
    }
    if i > 0 {
      assert Link(adj, p, i - 1);
    }
  }

  lemma OnPathInUniverse(adj: Adjacency, p: seq<string>, i: nat)
    requires IsWalk(adj, p) && i < |p| && p[|p| - 1] in adj
    ensures p[i] in Universe(adj)
  {
    if i + 1 < |p| {
      assert Link(adj, p, i);
    }
  }

  /** The search goes straight down the path: what x's visit ends with comes first of all. */
  lemma {:induction false} GoesDown(adj: Adjacency, p: seq<string>, i: nat)
    requires IsWalk(adj, p) && Distinct(p) && Leads(adj, p) && i < |p| && p[|p| - 1] in adj
    requires p[i] in Universe(adj) && p[|p| - 1] in Universe(adj)
    requires p[i] !in Down(p, i).visited && p[|p| - 1] !in Down(p, |p| - 1).visited
    decreases |p| - i
    ensures Visit(adj, p[|p| - 1], Down(p, |p| - 1)).finished <= Visit(adj, p[i], Down(p, i)).finished
  {
    if i + 1 < |p| {
      hide Universe, Leads, IsWalk, Inv;
      DownInv(adj, p, i + 1);
      OnPathInUniverse(adj, p, i + 1);
      GoesDown(adj, p, i + 1);
      OneDown(adj, p, i);
    }
  }

  lemma OneDown(adj: Adjacency, p: seq<string>, i: nat)
    requires IsWalk(adj, p) && Distinct(p) && Leads(adj, p) && i + 1 < |p|
    requires p[i] in Universe(adj) && p[i] !in Down(p, i).visited
    requires p[i + 1] in Universe(adj) && p[i + 1] !in Down(p, i + 1).visited
    ensures Visit(adj, p[i + 1], Down(p, i + 1)).finished <= Visit(adj, p[i], Down(p, i)).finished
  {
    hide Universe, IsWalk, Inv, VisitEdges;
    var id, next := p[i], p[i + 1];
    var st := Down(p, i + 1);
    assert LeadsAt(adj, p, i);
    var first := Visit(adj, next, st);
    NextNotEmpty(adj, p, i);
    DownInv(adj, p, i + 1);
    assert p[..i + 1] == p[..i] + [id];
    VisitEdgeKeepsInv(adj, id, next, st, p[..i + 1]);
    EdgesInUniverse(adj, id);
    VisitEdgesKeepsInv(adj, id, 1, first, p[..i + 1]);
    FirstEdge(adj, id, st);
    assert Down(p, i).(visited := Down(p, i).visited + {id}, inStack := Down(p, i).inStack + {id}) == st;
  }

  lemma NextNotEmpty(adj: Adjacency, p: seq<string>, i: nat)
    requires IsWalk(adj, p) && i + 1 < |p|
    ensures p[i + 1] != "" && Arc(adj, p[i], p[i + 1])
  {
    assert Link(adj, p, i);
  }

  lemma FirstEdge(adj: Adjacency, id: string, st: SearchState)
    requires id in adj && adj[id] != [] && forall e <- adj[id] :: e.targetStepId in Universe(adj)
    ensures
      VisitEdges(adj, id, adj[id], st) == VisitEdges(adj, id, adj[id][1..], VisitEdge(adj, id, adj[id][0].targetStepId, st))
  {
  }

  lemma {:induction false} SomeOrder(s: set<string>) returns (r: seq<string>)
    ensures Distinct(r) && forall id :: id in r <==> id in s
  {
    if s == {} {
      r := [];
    } else {
      var id :| id in s;
      var rest := SomeOrder(s - {id});
      r := [id] + rest;
    }
  }

  /** The roots with the given one first. */
  lemma RootsFrom(adj: Adjacency, first: string) returns (roots: seq<string>)
    requires first in adj
    ensures Enumerates(roots, adj) && roots != [] && roots[0] == first
  {
    var rest := SomeOrder(adj.Keys - {first});
    roots := [first] + rest;
  }

  /** Down an escape, x's visit ends unrecorded, and stays so. */
  lemma EscapeUnreported(adj: Adjacency, roots: seq<string>, p: seq<string>, x: string)
    requires Escape(adj, p, x) && Leads(adj, p) && x in adj
    requires Enumerates(roots, adj) && roots != [] && roots[0] == p[0]
    ensures x !in Detect(adj, roots)
  {
    hide Inv, Universe, VisitEdges, Visit, Leads;
    var n := |p| - 1;
    var st := Down(p, n);
    DownInv(adj, p, n);
    DownInv(adj, p, 0);
    OnPathInUniverse(adj, p, 0);
    OnPathInUniverse(adj, p, n);
    GoesDown(adj, p, 0);
    var inner := Visit(adj, x, st);
    var k := |inner.finished| - 1;
    VisitedNow(adj, x, st, p[..n]);
    assert p[..n] + [x] == p;
    AllRoots(adj, roots, p);
    var f := VisitRoots(adj, roots, FRESH).finished;
    EnteredStays(adj, inner.finished, f, p, x, k);
    DetectExact(adj, roots, x);
    FinalDistinct(adj, roots);
    forall i | 0 <= i <= k
      ensures !Arc(adj, f[i], x)
    {
      assert inner.finished[i] == f[i];
      ReachedAround(adj, p, x, f[i]);
    }
    forall j | k <= j < |f|
      ensures !Arc(adj, x, f[j])
    {
      assert f[j] in p || f[j] !in f[..k + 1];
    }
    assert f[k] == x;
  }

  /** Everything x's visit visits is reached around the path. */
  lemma ReachedAround(adj: Adjacency, p: seq<string>, x: string, u: string)
    requires IsWalk(adj, p) && Distinct(p) && p[|p| - 1] == x && x in Universe(adj)
    requires x !in Down(p, |p| - 1).visited && u in Visit(adj, x, Down(p, |p| - 1)).finished
    ensures Around(adj, x, u, Elems(p))
  {
    var n := |p| - 1;
    var st := Down(p, n);
    DownInv(adj, p, n);
    VisitKeepsInv(adj, x, st, p[..n]);
    assert u !in st.visited by {
      PathNotFinishedAll(adj, Visit(adj, x, st), p[..n]);
    }
    VisitGoesAround(adj, x, st, u);
    assert p == p[..n] + [x];
    assert st.visited + {x} == Elems(p);
  }

  lemma PathNotFinishedAll(adj: Adjacency, st: SearchState, path: seq<string>)
    requires Inv(adj, st, path)
    ensures forall y :: y in path ==> y !in st.finished
    ensures forall y :: y in st.finished ==> y in st.visited
  {
  }

  lemma AllRoots(adj: Adjacency, roots: seq<string>, p: seq<string>)
    requires p != [] && roots != [] && roots[0] == p[0] && forall id <- roots :: id in adj
    requires p[0] in Universe(adj) && p[0] !in Down(p, 0).visited
    ensures Visit(adj, p[0], Down(p, 0)).finished <= VisitRoots(adj, roots, FRESH).finished
  {
    assert Down(p, 0) == FRESH;
    assert Inv(adj, FRESH, []);
    VisitKeepsInv(adj, p[0], FRESH, []);
    VisitRootsKeepsInv(adj, roots[1..], Visit(adj, p[0], FRESH));
  }

  lemma FinalDistinct(adj: Adjacency, roots: seq<string>)
    requires Enumerates(roots, adj)
    ensures Distinct(VisitRoots(adj, roots, FRESH).finished)
  {
    DetectVisitsAll(adj, roots);
  }

  // ------------------------------------------------------------------ the exact condition

  /** Every search reports x if and only if there is no escape to x. The program fixes neither the order
      of the roots nor, as far as this result goes, the order of the edges of a step: x is reported by
      every search exactly when no path leads to it on which a search could enter it and leave it out. */
  lemma AlwaysReportedIff(adj: Adjacency, x: string)
    ensures AlwaysReported(adj, x) <==> !exists p :: Escape(adj, p, x)
  {
    if p :| Escape(adj, p, x) {
      var other, roots := EscapingSearch(adj, p, x);
    } else {
      forall other, roots | Reordered(adj, other) && Enumerates(roots, other)
        ensures x in Detect(other, roots)
      {
        SameArcs(adj, other);
        if x !in adj {
          NoStepEscapes(adj, x);
        } else if x !in Detect(other, roots) {
          var p := UnreportedEscapes(other, roots, x);
          EscapeKept(other, adj, p, x);
        }
      }
    }
  }

  lemma EscapingSearch(adj: Adjacency, p: seq<string>, x: string) returns (other: Adjacency, roots: seq<string>)
    requires Escape(adj, p, x)
    ensures Reordered(adj, other) && Enumerates(roots, other) && x !in Detect(other, roots)
  {
    other := Along(adj, p);
    AlongReorders(adj, p);
    SameArcs(adj, other);
    EscapeKept(adj, other, p, x);
    if x in adj {
      AlongLeads(adj, p);
      assert p[0] in adj by {
        if |p| > 1 { assert Link(adj, p, 0); }
      }
      roots := RootsFrom(other, p[0]);
      EscapeUnreported(other, roots, p, x);
    } else {
      roots := SomeOrder(other.Keys);
      if x in Detect(other, roots) {
        ReportedOnCycle(other, roots, x);
        OnCycleIsStep(other, x);
      }
    }
  }

  lemma OnCycleIsStep(adj: Adjacency, x: string)
    requires OnCycle(adj, x)
    ensures x in adj
  {
    var c :| IsCycle(adj, c) && x in c;
    var i :| 0 <= i < |c| && c[i] == x;
    if i + 1 < |c| {
      assert Link(adj, c, i);
    }
  }

  /** What is no step has no arcs to escape. */
  lemma NoStepEscapes(adj: Adjacency, x: string)
    requires x !in adj
    ensures Escape(adj, [x], x)
  {
    forall u | Arc(adj, u, x)
      ensures !Around(adj, x, u, Elems([x]))
    {
      forall w
        ensures !AroundBy(adj, w, x, u, Elems([x]))
      {
        assert |w| > 1 ==> Link(adj, w, 0) == Arc(adj, w[0], w[1]);
      }
    }
  }

  /** The promise of the program's comment: what a search reports are all IDs that take part in a
      cycle. */
  ghost predicate KeepsComment(adj: Adjacency) {
    forall other, roots, x :: Reordered(adj, other) && Enumerates(roots, other) ==>
      (x in Detect(other, roots) <==> OnCycle(adj, x))
  }

  /** The promise is kept by every search if and only if there is no escape to any ID on a cycle. */
  lemma CommentKeptIff(adj: Adjacency)
    ensures KeepsComment(adj) <==> forall x :: OnCycle(adj, x) ==> !exists p :: Escape(adj, p, x)
  {
    if KeepsComment(adj) {
      forall x | OnCycle(adj, x)
        ensures !exists p :: Escape(adj, p, x)
      {
        AlwaysReportedIff(adj, x);
      }
    }
    if forall x :: OnCycle(adj, x) ==> !exists p :: Escape(adj, p, x) {
      forall other, roots, x | Reordered(adj, other) && Enumerates(roots, other)
        ensures x in Detect(other, roots) <==> OnCycle(adj, x)
      {
        AlwaysReportedIff(adj, x);
        if x in Detect(other, roots) {
          ReportedOnCycle(other, roots, x);
          CyclesKept(adj, other, x);
        }
      }
    }
  }

  lemma CyclesKept(adj: Adjacency, other: Adjacency, x: string)
    requires Reordered(adj, other) && OnCycle(other, x)
    ensures OnCycle(adj, x)
  {
    SameArcs(adj, other);
    var c :| IsCycle(other, c) && x in c;
    WalksKept(other, adj, c);
    assert IsCycle(adj, c);
  }
}
