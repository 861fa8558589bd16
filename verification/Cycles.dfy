/** Cycle detection by depth-first search.

    The search is specified by the functions Visit, VisitEdge, VisitEdges and VisitRoots over
    the state of one search; the class CycleSearch is the program's form of it, with maps that
    the nested search updates in place. The graph theory is in CycleTheory.dfy. */
module Cycles {
  import opened StepGraph

  /** A followable arc: empty targets are skipped, dangling ones are not. */
  ghost predicate Arc(adj: Adjacency, u: string, v: string) {
    u in adj && v != "" && exists i :: 0 <= i < |adj[u]| && adj[u][i].targetStepId == v
  }

  /** Every ID the search can meet: the steps and the targets of their edges. */
  ghost function Universe(adj: Adjacency): set<string> {
    adj.Keys + set u, i | u in adj && 0 <= i < |adj[u]| :: adj[u][i].targetStepId
  }

  ghost predicate Distinct<T>(s: seq<T>) {
    forall i, j :: 0 <= i < j < |s| ==> s[i] != s[j]
  }

  /** finished lists the IDs in the order in which their visits ended. */
  datatype SearchState = SearchState(
    visited: set<string>, inStack: set<string>, cyclic: seq<string>, finished: seq<string>)

  const FRESH: SearchState := SearchState({}, {}, [], [])

  function Record(ids: seq<string>, id: string): seq<string> {
    if id in ids then ids else ids + [id]
  }

  ghost function Visit(adj: Adjacency, id: string, st: SearchState): (r: SearchState)
    requires id in Universe(adj) && id !in st.visited
    decreases Universe(adj) - st.visited, 0
    ensures st.visited + {id} <= r.visited
  {
    var entered := st.(visited := st.visited + {id}, inStack := st.inStack + {id});
    var explored :=
      if id in adj then
        assert id in Universe(adj) - st.visited && id !in Universe(adj) - entered.visited;
        VisitEdges(adj, id, adj[id], entered)
      else entered;
    explored.(inStack := explored.inStack - {id}, finished := explored.finished + [id])
  }

  ghost function VisitEdge(adj: Adjacency, id: string, target: string, st: SearchState): (r: SearchState)
    requires target in Universe(adj)
    decreases Universe(adj) - st.visited, 1
    ensures st.visited <= r.visited
  {
    if target == "" then st
    else if target !in st.visited then Visit(adj, target, st)
    else if target in st.inStack then st.(cyclic := Record(Record(st.cyclic, target), id))
    else st
  }

  ghost function VisitEdges(adj: Adjacency, id: string, edges: seq<StepEdge>, st: SearchState): (r: SearchState)
    requires forall e <- edges :: e.targetStepId in Universe(adj)
    decreases Universe(adj) - st.visited, 2 + |edges|
    ensures st.visited <= r.visited
  {
    if edges == [] then st
    else
      var st1 := VisitEdge(adj, id, edges[0].targetStepId, st);
      assert Universe(adj) - st1.visited <= Universe(adj) - st.visited;
      VisitEdges(adj, id, edges[1..], st1)
  }

  ghost function VisitRoots(adj: Adjacency, roots: seq<string>, st: SearchState): (r: SearchState)
    requires forall id <- roots :: id in adj
    ensures st.visited <= r.visited
  {
    if roots == [] then st
    else VisitRoots(adj, roots[1..], if roots[0] in st.visited then st else Visit(adj, roots[0], st))
  }

  /** roots lists every step of the graph once: one of the orders the program's map loop may take. */
  ghost predicate Enumerates(roots: seq<string>, adj: Adjacency) {
    Distinct(roots) && (forall id :: id in roots <==> id in adj)
  }

  ghost function Detect(adj: Adjacency, roots: seq<string>): seq<string>
    requires forall id <- roots :: id in adj
  {
    VisitRoots(adj, roots, FRESH).cyclic
  }
}
