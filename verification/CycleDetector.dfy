/** The program's form of cycle detection: a search over the heap graph that updates its two
    maps and its result in place. */
module CycleDetector {
  import opened StepGraph
  import opened Cycles
  import opened CycleTheory

  /** The keys the program's map[string]bool holds as true. */
  function Marked(m: map<string, bool>): set<string> {
    set k | k in m && m[k]
  }

  /** The search as a visit of id begins. */
  function Entered(st: SearchState, id: string): SearchState {
    st.(visited := st.visited + {id}, inStack := st.inStack + {id})
  }

  lemma VisitIs(adj: Adjacency, id: string, st: SearchState)
    requires id in Universe(adj) && id !in st.visited
    ensures id in adj ==> forall e <- adj[id] :: e.targetStepId in Universe(adj)
    ensures
      var explored := if id in adj then VisitEdges(adj, id, adj[id], Entered(st, id)) else Entered(st, id);
      Visit(adj, id, st) == explored.(inStack := explored.inStack - {id}, finished := explored.finished + [id])
  {
    hide VisitEdges;
  }

  lemma EdgesInUniverse(adj: Adjacency, id: string)
    requires id in adj
    ensures forall e <- adj[id] :: e.targetStepId in Universe(adj)
  {
  }

  lemma EdgeTaken(adj: Adjacency, id: string, i: nat, st: SearchState)
    requires id in adj && i < |adj[id]| && forall e <- adj[id] :: e.targetStepId in Universe(adj)
    ensures
      VisitEdges(adj, id, adj[id][i..], st)
      == VisitEdges(adj, id, adj[id][i + 1..], VisitEdge(adj, id, adj[id][i].targetStepId, st))
  {
    hide VisitEdge, Universe;
    assert adj[id][i..][0] == adj[id][i] && adj[id][i..][1..] == adj[id][i + 1..];
  }

  lemma NoEdges(adj: Adjacency, id: string, st: SearchState)
    ensures VisitEdges(adj, id, [], st) == st
  {
  }

  method Contains(ids: seq<string>, id: string) returns (found: bool)
    ensures found <==> id in ids
  {
    for i := 0 to |ids|
      invariant id !in ids[..i]
    {
      if ids[i] == id {
        return true;
      }
    }
    return false;
  }

  /** The variables shared by the nested calls of the search. */
  class CycleSearch {
    const g: Graph
    var visited: map<string, bool>
    var inStack: map<string, bool>
    var cyclicIDs: seq<string>
    ghost var finished: seq<string>

    ghost function State(): SearchState
      reads this
    {
      SearchState(Marked(visited), Marked(inStack), cyclicIDs, finished)
    }

    constructor (g: Graph)
      ensures this.g == g && State() == FRESH
    {
      this.g := g;
      visited, inStack, cyclicIDs, finished := map[], map[], [], [];
    }

    method Record(id: string)
      modifies this`cyclicIDs
      ensures cyclicIDs == Cycles.Record(old(cyclicIDs), id)
    {
      var known := Contains(cyclicIDs, id);
      if !known {
        cyclicIDs := cyclicIDs + [id];
      }
    }

    method Dfs(id: string)
      requires id in Universe(g.Arcs()) && id !in Marked(visited)
      modifies this
      decreases Universe(g.Arcs()) - Marked(visited), 0
      ensures State() == Visit(g.Arcs(), id, old(State()))
    {
      hide VisitEdges, VisitEdge, Visit, Universe;
      ghost var adj, before := g.Arcs(), State();
      ghost var entered := Entered(before, id);
      visited := visited[id := true];
      inStack := inStack[id := true];
      assert State() == entered;
      VisitIs(adj, id, before);
      var step := g.StepAt(id);
      if step.Some? {
        var edges := step.value.edges;
        EdgesInUniverse(adj, id);
        assert edges == adj[id] && edges[0..] == edges;
        for i := 0 to |edges|
          invariant g.Arcs() == adj && entered.visited <= Marked(visited)
          invariant VisitEdges(adj, id, edges[i..], State()) == VisitEdges(adj, id, edges, entered)
        {
          EdgeTaken(adj, id, i, State());
          assert id in Universe(adj) - before.visited && id !in Universe(adj) - Marked(visited);
          Follow(id, edges[i].targetStepId);
        }
        NoEdges(adj, id, State());
        assert edges[|edges|..] == [];
        assert State() == VisitEdges(adj, id, adj[id], entered);
      }
      Leave(id);
    }

    /** The body of the loop over the edges of id. */
    method Follow(id: string, target: string)
      requires target in Universe(g.Arcs())
      modifies this
      decreases Universe(g.Arcs()) - Marked(visited), 1
      ensures State() == VisitEdge(g.Arcs(), id, target, old(State()))
    {
      if target == "" {
        return;
      }
      if target !in visited || !visited[target] {
        Dfs(target);
      } else if target in inStack && inStack[target] {
        Record(target);
        Record(id);
      }
    }

    /** The program's inStack[id] = false, on both ways out of the search of id. */
    method Leave(id: string)
      modifies this`inStack, this`finished
      ensures State() == old(State()).(inStack := old(State()).inStack - {id}, finished := old(finished) + [id])
    {
      inStack := inStack[id := false];
      finished := finished + [id];
      assert Marked(inStack) == old(Marked(inStack)) - {id};
    }
  }

  /** Reports IDs on cycles. The program's loop over the step map takes any order; whichever
      it takes, the result is that of the specified search from those roots. */
  method DetectCycles(g: Graph) returns (ids: seq<string>)
    ensures exists roots :: Enumerates(roots, g.Arcs()) && ids == Detect(g.Arcs(), roots)
    ensures Distinct(ids) && Sound(g.Arcs(), ids)
    ensures forall c :: IsCycle(g.Arcs(), c) ==> Hits(c, ids)
    ensures ids == [] <==> !exists c :: IsCycle(g.Arcs(), c)
  {
    ghost var adj := g.Arcs();
    ghost var roots: seq<string> := [];
    var search := new CycleSearch(g);
    var pending := g.steps.Keys;
    while pending != {}
      invariant pending <= g.steps.Keys
      invariant Distinct(roots) && forall id :: id in roots <==> id in g.steps.Keys - pending
      invariant g.Arcs() == adj && search.g == g
      invariant search.State() == VisitRoots(adj, roots, FRESH)
      decreases pending
    {
      var id :| id in pending;
      pending := pending - {id};
      VisitRootsSnoc(adj, roots, id, FRESH);
      if id !in search.visited || !search.visited[id] {
        search.Dfs(id);
      }
      RecordFacts(roots, id);
      roots := roots + [id];
    }
    DetectCorrect(adj, roots);
    ids := search.cyclicIDs;
    assert Enumerates(roots, adj) && ids == Detect(adj, roots);
  }

  lemma {:induction false} VisitRootsSnoc(adj: Adjacency, roots: seq<string>, id: string, st: SearchState)
    requires id in adj && forall r <- roots :: r in adj
    ensures
      VisitRoots(adj, roots + [id], st) ==
      var s := VisitRoots(adj, roots, st);
      if id in s.visited then s else Visit(adj, id, s)
  {
    if roots == [] {
      assert ([] + [id])[1..] == [];
    } else {
      assert (roots + [id])[1..] == roots[1..] + [id];
      VisitRootsSnoc(adj, roots[1..], id, if roots[0] in st.visited then st else Visit(adj, roots[0], st));
    }
  }

  // ------------------------------------------------------------------ less than the comment says

  const RING: Adjacency := map["a" := [NextEdge("b")], "b" := [NextEdge("c")], "c" := [NextEdge("a")]]

  /** The program's comment promises all IDs that take part in a cycle. On a ring of three steps
      a search from "a" reports two of them. */
  lemma RingNotFullyReported()
    ensures Enumerates(["a", "b", "c"], RING)
    ensures IsCycle(RING, ["a", "b", "c"])
    ensures Detect(RING, ["a", "b", "c"]) == ["a", "c"]
  {
    var c := ["a", "b", "c"];
    assert Arc(RING, "a", "b") by { assert RING["a"][0].targetStepId == "b"; }
    assert Arc(RING, "b", "c") by { assert RING["b"][0].targetStepId == "c"; }
    assert Arc(RING, "c", "a") by { assert RING["c"][0].targetStepId == "a"; }
    assert IsWalk(RING, c) by {
      forall i: nat | i + 1 < |c| ensures Link(RING, c, i) { assert i == 0 || i == 1; }
    }
    var s0 := SearchState({"a"}, {"a"}, [], []);
    var s1 := SearchState({"a", "b"}, {"a", "b"}, [], []);
    var s2 := SearchState({"a", "b", "c"}, {"a", "b", "c"}, [], []);
    var s3 := s2.(cyclic := ["a", "c"]);
    var s4 := SearchState({"a", "b", "c"}, {"a", "b"}, ["a", "c"], ["c"]);
    var s5 := SearchState({"a", "b", "c"}, {"a"}, ["a", "c"], ["c", "b"]);
    assert s1.(visited := s1.visited + {"c"}, inStack := s1.inStack + {"c"}) == s2;
    assert s3.(inStack := s3.inStack - {"c"}, finished := ["c"]) == s4;
    VisitOne("c", "a", s1, s2, s3);
    assert s0.(visited := s0.visited + {"b"}, inStack := s0.inStack + {"b"}) == s1;
    assert s4.(inStack := s4.inStack - {"b"}, finished := s4.finished + ["b"]) == s5;
    VisitOne("b", "c", s0, s1, s4);
    assert FRESH.(visited := FRESH.visited + {"a"}, inStack := FRESH.inStack + {"a"}) == s0;
    VisitOne("a", "b", FRESH, s0, s5);
    var s6 := Visit(RING, "a", FRESH);
    assert s6.cyclic == ["a", "c"] && s6.visited == {"a", "b", "c"};
    assert VisitRoots(RING, c, FRESH) == s6 by {
      assert c[1..] == ["b", "c"] && c[1..][1..] == ["c"] && c[1..][1..][1..] == [];
      assert VisitRoots(RING, ["c"], s6) == s6;
      assert VisitRoots(RING, ["b", "c"], s6) == VisitRoots(RING, ["c"], s6);
    }
  }

  lemma VisitOne(id: string, target: string, st: SearchState, entered: SearchState, explored: SearchState)
    requires id in RING && target in RING && RING[id] == [NextEdge(target)]
    requires id !in st.visited && entered == st.(visited := st.visited + {id}, inStack := st.inStack + {id})
    requires VisitEdge(RING, id, target, entered) == explored
    ensures
      Visit(RING, id, st) == explored.(inStack := explored.inStack - {id}, finished := explored.finished + [id])
  {
    assert RING[id][1..] == [];
    assert VisitEdges(RING, id, RING[id], entered) == explored;
  }
}
