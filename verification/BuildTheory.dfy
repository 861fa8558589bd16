/** What the builder's output is: a forest of NEXT edges over the nodes it was given. */
module BuildTheory {
  import opened StepGraph
  import opened Decimals
  import opened Building
  import opened Cycles
  import opened CycleTheory

  function Ids(steps: seq<StepData>): (r: seq<string>)
    ensures |r| == |steps|
  {
    seq(|steps|, i requires 0 <= i < |steps| => steps[i].id)
  }

  lemma IdsConcat(a: seq<StepData>, b: seq<StepData>)
    ensures Ids(a + b) == Ids(a) + Ids(b)
  {
  }

  // ------------------------------------------------------------------ numbering

  /** The nodes of a forest, parents before children, in child order. */
  function Preorder(ns: seq<Node>): (r: seq<Node>)
    ensures |r| == SizeAll(ns)
  {
    if ns == [] then [] else [ns[0]] + Preorder(ns[0].children) + Preorder(ns[1..])
  }

  /** How a forest splits into its first root, that root's children and the other trees. */
  lemma CompileParts(ns: seq<Node>, c: nat, omit: bool)
    requires ns != []
    ensures
      CompileAll(ns, c, omit) ==
      [RootStep(ns[0], c, omit)] + CompileAll(ns[0].children, c + 1, omit)
      + CompileAll(ns[1..], c + Size(ns[0]), omit)
    ensures RootIds(ns, c) == [RootStep(ns[0], c, omit).id] + RootIds(ns[1..], c + Size(ns[0]))
    ensures Preorder(ns) == [ns[0]] + Preorder(ns[0].children) + Preorder(ns[1..])
    ensures |CompileAll(ns[0].children, c + 1, omit)| + 1 == Size(ns[0])
  {
  }

  lemma SizeParts(ns: seq<Node>)
    requires ns != []
    ensures SizeAll(ns) == Size(ns[0]) + SizeAll(ns[1..])
  {
  }

  lemma SingleTree(n: Node, c: nat, omit: bool)
    ensures CompileAll([n], c, omit) == [RootStep(n, c, omit)] + CompileAll(n.children, c + 1, omit)
    ensures SizeAll([n]) == Size(n)
    ensures RootIds([n], c) == [RootStep(n, c, omit).id]
  {
    assert [n][1..] == [];
    assert CompileAll([], c + Size(n), omit) == [];
  }

  /** Building one more tree after a forest. */
  lemma {:induction false} CompileSnoc(ns: seq<Node>, n: Node, c: nat, omit: bool)
    ensures SizeAll(ns + [n]) == SizeAll(ns) + Size(n)
    ensures CompileAll(ns + [n], c, omit) == CompileAll(ns, c, omit) + CompileAll([n], c + SizeAll(ns), omit)
    ensures ChildEdges(ns + [n], c) == ChildEdges(ns, c) + [NextEdge(IdOf(n, c + SizeAll(ns) + 1))]
  {
    hide *;
    if ns == [] {
      assert ns + [n] == [n];
      EmptyForest(c, omit);
      SingleTree(n, c, omit);
      SingleEdge(n, c, omit);
    } else {
      assert (ns + [n])[0] == ns[0] && (ns + [n])[1..] == ns[1..] + [n];
      CompileSnoc(ns[1..], n, c + Size(ns[0]), omit);
      SizeParts(ns);
      SizeParts(ns + [n]);
      CompileParts(ns, c, omit);
      CompileParts(ns + [n], c, omit);
      ChildEdgesParts(ns, c, omit);
      ChildEdgesParts(ns + [n], c, omit);
    }
  }

  lemma EmptyForest(c: nat, omit: bool)
    ensures CompileAll([], c, omit) == [] && SizeAll([]) == 0 && ChildEdges([], c) == []
  {
  }

  lemma SingleEdge(n: Node, c: nat, omit: bool)
    ensures ChildEdges([n], c) == [NextEdge(IdOf(n, c + 1))]
  {
    assert [n][1..] == [];
    assert ChildEdges([], c + Size(n)) == [];
  }

  /** Steps from place c on carry the IDs and labels of their nodes. */
  ghost predicate Numbered(steps: seq<StepData>, nodes: seq<Node>, c: nat) {
    |steps| == |nodes| &&
    forall i :: 0 <= i < |steps| ==>
      steps[i].id == IdOf(nodes[i], c + 1 + i) && steps[i].labelText == nodes[i].labelText
  }

  lemma NumberedJoin(a: seq<StepData>, b: seq<StepData>, ns: seq<Node>, ms: seq<Node>, c: nat)
    requires Numbered(a, ns, c) && Numbered(b, ms, c + |a|)
    ensures Numbered(a + b, ns + ms, c)
  {
    forall i | |a| <= i < |a + b|
      ensures (a + b)[i].id == IdOf((ns + ms)[i], c + 1 + i)
    {
      assert b[i - |a|].id == IdOf(ms[i - |a|], c + |a| + 1 + (i - |a|));
    }
  }

  lemma RootNumbered(n: Node, c: nat, omit: bool)
    ensures Numbered([RootStep(n, c, omit)], [n], c)
  {
  }

  lemma NumberedStep(ns: seq<Node>, c: nat, omit: bool)
    requires ns != []
    requires Numbered(CompileAll(ns[0].children, c + 1, omit), Preorder(ns[0].children), c + 1)
    requires Numbered(CompileAll(ns[1..], c + Size(ns[0]), omit), Preorder(ns[1..]), c + Size(ns[0]))
    ensures Numbered(CompileAll(ns, c, omit), Preorder(ns), c)
  {
    hide *;
    var n := ns[0];
    var root, inner, tail :=
      [RootStep(n, c, omit)], CompileAll(n.children, c + 1, omit), CompileAll(ns[1..], c + Size(n), omit);
    RootNumbered(n, c, omit);
    CompileParts(ns, c, omit);
    NumberedJoin(root, inner, [n], Preorder(n.children), c);
    NumberedJoin(root + inner, tail, [n] + Preorder(n.children), Preorder(ns[1..]), c);
  }

  /** The counter of a node is its place in the preorder, whatever IDs the nodes bring. */
  lemma {:induction false} PlaceIsCounter(ns: seq<Node>, c: nat, omit: bool)
    decreases ns
    ensures Numbered(CompileAll(ns, c, omit), Preorder(ns), c)
  {
    if ns != [] {
      hide *;
      PlaceIsCounter(ns[0].children, c + 1, omit);
      PlaceIsCounter(ns[1..], c + Size(ns[0]), omit);
      NumberedStep(ns, c, omit);
    }
  }

  ghost predicate IsFresh(id: string) {
    exists k: nat :: id == FreshId(k)
  }

  /** The explicit IDs are pairwise distinct and none looks like a numbered one. */
  ghost predicate WellNamed(ns: seq<Node>) {
    var p := Preorder(ns);
    (forall i, j :: 0 <= i < j < |p| && p[i].id != "" ==> p[i].id != p[j].id) &&
    (forall i :: 0 <= i < |p| ==> !IsFresh(p[i].id))
  }

  lemma FreshInjective(a: nat, b: nat)
    requires FreshId(a) == FreshId(b)
    ensures a == b
  {
    assert FreshId(a)[5..] == Padded4(a) && FreshId(b)[5..] == Padded4(b);
    Padded4Value(a);
    Padded4Value(b);
  }

  /** A numbered ID is its prefix and the counter with at least four digits. */
  lemma FreshIdIs(counter: nat)
    ensures
      var id := FreshId(counter);
      && |id| >= 9 && id[..5] == "step-" && AllDigits(id[5..]) && Value(id[5..]) == counter
      && (|id| > 9 ==> id[5] != '0')
  {
    Padded4Value(counter);
    Padded4Shape(counter);
    assert FreshId(counter)[5..] == Padded4(counter);
  }

  lemma FreshHasNoColon(k: nat)
    ensures ':' !in FreshId(k)
  {
    Padded4Value(k);
    assert ':' !in Padded4(k);
  }

  /** IDs in the parsers' form "kind:row:column" are never mistaken for numbered ones. */
  lemma ColonNotFresh(id: string)
    requires ':' in id
    ensures !IsFresh(id)
  {
    forall k: nat
      ensures id != FreshId(k)
    {
      FreshHasNoColon(k);
    }
  }

  /** Explicit and numbered IDs never clash. */
  lemma WellNamedDistinct(ns: seq<Node>, c: nat, omit: bool)
    requires WellNamed(ns)
    ensures Distinct(Ids(CompileAll(ns, c, omit)))
  {
    var s := CompileAll(ns, c, omit);
    var p := Preorder(ns);
    PlaceIsCounter(ns, c, omit);
    hide CompileAll, Preorder, FreshId, SizeAll;
    forall i, j | 0 <= i < j < |s|
      ensures Ids(s)[i] != Ids(s)[j]
    {
      assert s[i].id == IdOf(p[i], c + 1 + i) && s[j].id == IdOf(p[j], c + 1 + j);
      if p[i].id == "" && p[j].id == "" && Ids(s)[i] == Ids(s)[j] {
        FreshInjective(c + 1 + i, c + 1 + j);
      }
    }
  }

  /** What can be seen of the nodes before they are built, when the counter stands at c: no two
      bring the same ID, and none brings the number that a node without an ID will get. */
  ghost predicate NamesApart(ns: seq<Node>, c: nat) {
    var p := Preorder(ns);
    forall i, j :: 0 <= i < |p| && 0 <= j < |p| && i != j && p[i].id != "" ==>
      p[i].id != (if p[j].id != "" then p[j].id else FreshId(c + 1 + j))
  }

  /** The steps get distinct IDs if and only if the names are apart. */
  lemma DistinctIffNamesApart(ns: seq<Node>, c: nat, omit: bool)
    ensures Distinct(Ids(CompileAll(ns, c, omit))) <==> NamesApart(ns, c)
  {
    var s := CompileAll(ns, c, omit);
    var p := Preorder(ns);
    PlaceIsCounter(ns, c, omit);
    hide CompileAll, Preorder, FreshId, SizeAll;
    assert forall i :: 0 <= i < |s| ==> Ids(s)[i] == IdOf(p[i], c + 1 + i);
    if NamesApart(ns, c) {
      forall i, j | 0 <= i < j < |s|
        ensures Ids(s)[i] != Ids(s)[j]
      {
        if p[i].id == "" && p[j].id == "" && Ids(s)[i] == Ids(s)[j] {
          FreshInjective(c + 1 + i, c + 1 + j);
        }
      }
    }
    if Distinct(Ids(s)) {
      forall i, j | 0 <= i < |p| && 0 <= j < |p| && i != j && p[i].id != ""
        ensures p[i].id != if p[j].id != "" then p[j].id else FreshId(c + 1 + j)
      {
        assert Ids(s)[i] != Ids(s)[j];
      }
    }
  }

  // ------------------------------------------------------------------ NEXT edges form a forest

  function NextTargetsOf(edges: seq<StepEdge>): seq<string> {
    if edges == [] then []
    else (if edges[0].edgeLabel.Next? then [edges[0].targetStepId] else []) + NextTargetsOf(edges[1..])
  }

  /** The targets of all NEXT edges of the steps, one entry per edge. */
  function NextTargets(steps: seq<StepData>): seq<string> {
    if steps == [] then [] else NextTargetsOf(steps[0].edges) + NextTargets(steps[1..])
  }

  function RootIds(ns: seq<Node>, c: nat): seq<string> {
    if ns == [] then [] else [IdOf(ns[0], c + 1)] + RootIds(ns[1..], c + Size(ns[0]))
  }

  lemma {:induction false} NextTargetsConcat(a: seq<StepData>, b: seq<StepData>)
    ensures NextTargets(a + b) == NextTargets(a) + NextTargets(b)
  {
    if a == [] {
      assert a + b == b;
    } else {
      assert (a + b)[1..] == a[1..] + b;
      NextTargetsConcat(a[1..], b);
    }
  }

  lemma {:induction false} CallEdgesHaveNoNext(calls: seq<CallRef>, more: seq<StepEdge>)
    ensures NextTargetsOf(CallEdges(calls) + more) == NextTargetsOf(more)
  {
    if calls == [] {
      assert CallEdges(calls) + more == more;
    } else {
      assert (CallEdges(calls) + more)[1..] == CallEdges(calls[1..]) + more;
      CallEdgesHaveNoNext(calls[1..], more);
    }
  }

  lemma {:induction false} ChildTargets(ns: seq<Node>, c: nat)
    ensures NextTargetsOf(ChildEdges(ns, c)) == RootIds(ns, c)
  {
    if ns == [] {
    } else {
      assert ChildEdges(ns, c)[1..] == ChildEdges(ns[1..], c + Size(ns[0]));
      ChildTargets(ns[1..], c + Size(ns[0]));
    }
  }

  lemma RootNextTargets(n: Node, c: nat, omit: bool)
    ensures NextTargets([RootStep(n, c, omit)]) == RootIds(n.children, c + 1)
  {
    assert [RootStep(n, c, omit)][1..] == [];
    CallEdgesHaveNoNext(n.calls, ChildEdges(n.children, c + 1));
    ChildTargets(n.children, c + 1);
  }

  /** The NEXT edges of steps lead to every one of their IDs as often as it was given out, the
      roots left out once. */
  ghost predicate Conserved(steps: seq<StepData>, roots: seq<string>) {
    multiset(NextTargets(steps)) + multiset(roots) == multiset(Ids(steps))
  }

  lemma ConservedJoin(root: StepData, inner: seq<StepData>, tail: seq<StepData>,
                      innerRoots: seq<string>, tailRoots: seq<string>)
    requires NextTargets([root]) == innerRoots
    requires Conserved(inner, innerRoots) && Conserved(tail, tailRoots)
    ensures Conserved([root] + inner + tail, [root.id] + tailRoots)
  {
    NextTargetsConcat([root] + inner, tail);
    NextTargetsConcat([root], inner);
    IdsConcat([root] + inner, tail);
    IdsConcat([root], inner);
    assert Ids([root]) == [root.id];
  }

  lemma NothingConserved(ns: seq<Node>, c: nat, omit: bool)
    requires ns == []
    ensures Conserved(CompileAll(ns, c, omit), RootIds(ns, c))
  {
    assert CompileAll(ns, c, omit) == [] && RootIds(ns, c) == [];
  }

  lemma ConservedStep(ns: seq<Node>, c: nat, omit: bool)
    requires ns != []
    requires Conserved(CompileAll(ns[0].children, c + 1, omit), RootIds(ns[0].children, c + 1))
    requires Conserved(CompileAll(ns[1..], c + Size(ns[0]), omit), RootIds(ns[1..], c + Size(ns[0])))
    ensures Conserved(CompileAll(ns, c, omit), RootIds(ns, c))
  {
    hide *;
    var n, c2 := ns[0], c + Size(ns[0]);
    RootNextTargets(n, c, omit);
    CompileParts(ns, c, omit);
    ConservedJoin(RootStep(n, c, omit), CompileAll(n.children, c + 1, omit), CompileAll(ns[1..], c2, omit),
                  RootIds(n.children, c + 1), RootIds(ns[1..], c2));
  }

  lemma {:induction false} NextEdgesConserved(ns: seq<Node>, c: nat, omit: bool)
    decreases ns
    ensures Conserved(CompileAll(ns, c, omit), RootIds(ns, c))
  {
    hide *;
    if ns == [] {
      NothingConserved(ns, c, omit);
    } else {
      NextEdgesConserved(ns[0].children, c + 1, omit);
      NextEdgesConserved(ns[1..], c + Size(ns[0]), omit);
      ConservedStep(ns, c, omit);
    }
  }

  lemma DistinctCount(s: seq<string>, i: nat)
    requires Distinct(s) && i < |s|
    ensures multiset(s)[s[i]] == 1
  {
    assert s == s[..i] + [s[i]] + s[i + 1..];
    assert s[i] !in s[..i] && s[i] !in s[i + 1..];
  }

  /** With distinct IDs every step but the roots has exactly one incoming NEXT edge, the roots
      have none, and no NEXT edge leaves the graph. */
  lemma NextForest(ns: seq<Node>, c: nat, omit: bool, id: string)
    requires Distinct(Ids(CompileAll(ns, c, omit)))
    ensures
      var incoming := multiset(NextTargets(CompileAll(ns, c, omit)))[id];
      incoming == if id in Ids(CompileAll(ns, c, omit)) && id !in RootIds(ns, c) then 1 else 0
  {
    var ids := Ids(CompileAll(ns, c, omit));
    NextEdgesConserved(ns, c, omit);
    assert multiset(RootIds(ns, c))[id] > 0 <==> id in RootIds(ns, c);
    if id in ids {
      var i :| 0 <= i < |ids| && ids[i] == id;
      DistinctCount(ids, i);
    } else {
      assert multiset(ids)[id] == 0;
    }
  }

  lemma {:induction false} NextTargetsMember(steps: seq<StepData>, i: nat, id: string)
    requires i < |steps| && id in NextTargetsOf(steps[i].edges)
    ensures id in NextTargets(steps)
  {
    if i == 0 {
    } else {
      NextTargetsMember(steps[1..], i - 1, id);
    }
  }

  lemma RootIdAt(ns: seq<Node>, c: nat, omit: bool, k: nat)
    requires k < |ns|
    ensures SizeAll(ns[..k]) < SizeAll(ns)
    ensures CompileAll(ns, c, omit)[SizeAll(ns[..k])].id in RootIds(ns, c)
  {
    hide CompileAll, ChildEdges, SizeAll, RootIds, NextTargetsOf;
    ChildOrder(ns, c, omit, k);
    ChildTargets(ns, c);
    NextEdgesListed(ChildEdges(ns, c), k);
  }

  lemma {:induction false} NextEdgesListed(edges: seq<StepEdge>, k: nat)
    requires k < |edges| && edges[k].edgeLabel.Next?
    ensures edges[k].targetStepId in NextTargetsOf(edges)
  {
    if k == 0 {
    } else {
      NextEdgesListed(edges[1..], k - 1);
    }
  }

  /** The program's comment speaks of edges between siblings. No NEXT edge leads from a sibling, or
      from any step below one, to a sibling. */
  lemma NoSiblingEdges(ns: seq<Node>, c: nat, omit: bool, k: nat, i: nat)
    requires Distinct(Ids(CompileAll(ns, c, omit)))
    requires k < |ns| && i < |CompileAll(ns, c, omit)|
    ensures SizeAll(ns[..k]) < SizeAll(ns)
    ensures CompileAll(ns, c, omit)[SizeAll(ns[..k])].id !in NextTargetsOf(CompileAll(ns, c, omit)[i].edges)
  {
    hide *;
    RootIdAt(ns, c, omit, k);
    var steps := CompileAll(ns, c, omit);
    var id := steps[SizeAll(ns[..k])].id;
    NextForest(ns, c, omit, id);
    if id in NextTargetsOf(steps[i].edges) {
      NextTargetsMember(steps, i, id);
    }
  }

  function Leaf(id: string): Node {
    Node(id, AssignmentNode, id, 0, 0, 0, 0, "", [], [])
  }

  /** A node with two children: its step has an edge to each child, the children have none. */
  lemma TwoSiblings(omit: bool)
    ensures
      var parent := Node("f:1:1", FunctionNode, "f", 0, 0, 0, 0, "", [Leaf("a:2:1"), Leaf("b:3:1")], []);
      var steps := CompileAll([parent], 0, omit);
      && |steps| == 3 && steps[0].edges == [NextEdge("a:2:1"), NextEdge("b:3:1")]
      && steps[1].edges == [] && steps[2].edges == []
  {
    var a, b := Leaf("a:2:1"), Leaf("b:3:1");
    var parent := Node("f:1:1", FunctionNode, "f", 0, 0, 0, 0, "", [a, b], []);
    LeafStep(b, 2, omit);
    assert [a, b][1..] == [b] && [parent][1..] == [] && [b][1..] == [];
    assert CompileAll([a, b], 1, omit) == [RootStep(a, 1, omit)] + CompileAll([b], 2, omit);
    assert ChildEdges([b], 2) == [NextEdge("b:3:1")];
    assert ChildEdges([a, b], 1) == [NextEdge("a:2:1")] + ChildEdges([b], 2);
  }

  lemma LeafStep(n: Node, c: nat, omit: bool)
    requires n.children == [] && n.calls == []
    ensures CompileAll([n], c, omit) == [RootStep(n, c, omit)] && RootStep(n, c, omit).edges == [] && Size(n) == 1
  {
    assert [n][1..] == [];
  }

  /** The k-th child edge leads to the step built from the k-th child. */
  lemma {:induction false} ChildOrder(ns: seq<Node>, c: nat, omit: bool, k: nat)
    requires k < |ns|
    ensures |ChildEdges(ns, c)| == |ns| && SizeAll(ns[..k]) < SizeAll(ns)
    ensures ChildEdges(ns, c)[k] == NextEdge(CompileAll(ns, c, omit)[SizeAll(ns[..k])].id)
    ensures CompileAll(ns, c, omit)[SizeAll(ns[..k])].labelText == ns[k].labelText
  {
    hide *;
    ChildEdgesLength(ns, c);
    CompileParts(ns, c, omit);
    SizePrefix(ns, k);
    ChildEdgesParts(ns, c, omit);
    if k == 0 {
    } else {
      ChildOrder(ns[1..], c + Size(ns[0]), omit, k - 1);
      ElementAfter(CompileAll(ns, c, omit), [RootStep(ns[0], c, omit)] + CompileAll(ns[0].children, c + 1, omit),
                   CompileAll(ns[1..], c + Size(ns[0]), omit), SizeAll(ns[1..][..k - 1]));
    }
  }

  lemma ElementAfter(s: seq<StepData>, a: seq<StepData>, b: seq<StepData>, i: nat)
    requires s == a + b && i < |b|
    ensures s[|a| + i] == b[i]
  {
  }

  lemma ChildEdgesParts(ns: seq<Node>, c: nat, omit: bool)
    requires ns != []
    ensures ChildEdges(ns, c) == [NextEdge(RootStep(ns[0], c, omit).id)] + ChildEdges(ns[1..], c + Size(ns[0]))
    ensures RootStep(ns[0], c, omit).labelText == ns[0].labelText
  {
  }

  lemma SizePrefix(ns: seq<Node>, k: nat)
    requires k < |ns|
    ensures SizeAll(ns) == Size(ns[0]) + SizeAll(ns[1..])
    ensures SizeAll(ns[..k]) == if k == 0 then 0 else Size(ns[0]) + SizeAll(ns[1..][..k - 1])
  {
    if k > 0 {
      assert ns[..k][1..] == ns[1..][..k - 1];
    }
  }

  lemma {:induction false} ChildEdgesLength(ns: seq<Node>, c: nat)
    ensures |ChildEdges(ns, c)| == |ns|
  {
    if ns == [] {
    } else {
      ChildEdgesLength(ns[1..], c + Size(ns[0]));
    }
  }

  // ------------------------------------------------------------------ the map of steps

  lemma {:induction false} StoredKeys(steps: seq<StepData>)
    ensures forall id :: id in Stored(map[], steps) <==> id in Ids(steps)
    ensures |Stored(map[], steps)| <= |steps|
  {
    if steps == [] {
    } else {
      var front, last := steps[..|steps| - 1], steps[|steps| - 1];
      StoredKeys(front);
      assert Ids(steps) == Ids(front) + [last.id];
    }
  }

  lemma {:induction false} StoredDistinct(steps: seq<StepData>)
    requires Distinct(Ids(steps))
    ensures forall i :: 0 <= i < |steps| ==>
      steps[i].id in Stored(map[], steps) && Stored(map[], steps)[steps[i].id] == steps[i]
    ensures |Stored(map[], steps)| == |steps|
  {
    if steps == [] {
    } else {
      var front, last := steps[..|steps| - 1], steps[|steps| - 1];
      assert Ids(steps) == Ids(front) + [last.id];
      assert forall i :: 0 <= i < |front| ==> Ids(steps)[i] == Ids(front)[i] == front[i].id == steps[i].id;
      assert Ids(steps)[|front|] == last.id;
      StoredDistinct(front);
      StoredKeys(front);
      assert last.id !in Ids(front);
    }
  }

  lemma {:induction false} StoredSmaller(steps: seq<StepData>)
    requires !Distinct(Ids(steps))
    ensures |Stored(map[], steps)| < |steps|
  {
    var front, last := steps[..|steps| - 1], steps[|steps| - 1];
    assert Ids(steps) == Ids(front) + [last.id];
    StoredKeys(front);
    if Distinct(Ids(front)) {
      assert last.id in Ids(front);
    } else {
      StoredSmaller(front);
    }
  }

  /** Every step keeps its own place in the graph exactly when the IDs are distinct. */
  lemma CountIffDistinct(steps: seq<StepData>)
    ensures |Stored(map[], steps)| == |steps| <==> Distinct(Ids(steps))
  {
    if Distinct(Ids(steps)) {
      StoredDistinct(steps);
    } else {
      StoredSmaller(steps);
    }
  }

  // ------------------------------------------------------------------ acyclic

  ghost predicate NoInternalTargets(ns: seq<Node>) {
    forall n <- Preorder(ns), call <- n.calls :: call.internalCall ==> call.targetNodeID == ""
  }

  /** Every edge of a step leads nowhere or to a step listed later. */
  ghost predicate LeadsOn(steps: seq<StepData>, i: nat)
    requires i < |steps|
  {
    forall e <- steps[i].edges :: e.targetStepId == "" || e.targetStepId in Ids(steps[i + 1..])
  }

  ghost predicate AllLeadOn(steps: seq<StepData>) {
    forall i: nat :: i < |steps| ==> LeadsOn(steps, i)
  }

  lemma RootsListed(ns: seq<Node>, c: nat, omit: bool)
    ensures forall id <- RootIds(ns, c) :: id in Ids(CompileAll(ns, c, omit))
  {
    NextEdgesConserved(ns, c, omit);
    forall id | id in RootIds(ns, c)
      ensures id in Ids(CompileAll(ns, c, omit))
    {
      assert id in multiset(Ids(CompileAll(ns, c, omit)));
    }
  }

  lemma {:induction false} CallEdgesEmpty(calls: seq<CallRef>)
    requires forall call <- calls :: call.internalCall ==> call.targetNodeID == ""
    ensures forall e <- CallEdges(calls) :: e.targetStepId == ""
  {
    if calls == [] {
    } else {
      CallEdgesEmpty(calls[1..]);
    }
  }

  lemma {:induction false} ChildEdgesToRoots(ns: seq<Node>, c: nat)
    ensures forall e <- ChildEdges(ns, c) :: e.targetStepId in RootIds(ns, c)
  {
    if ns == [] {
    } else {
      ChildEdgesToRoots(ns[1..], c + Size(ns[0]));
    }
  }

  lemma LeadOnJoin(a: seq<StepData>, b: seq<StepData>)
    requires AllLeadOn(a) && AllLeadOn(b)
    ensures AllLeadOn(a + b)
  {
    forall i: nat | i < |a + b|
      ensures LeadsOn(a + b, i)
    {
      if i < |a| {
        assert LeadsOn(a, i);
        assert (a + b)[i + 1..] == a[i + 1..] + b;
        IdsConcat(a[i + 1..], b);
      } else {
        assert LeadsOn(b, i - |a|);
        assert (a + b)[i + 1..] == b[i - |a| + 1..];
      }
    }
  }

  lemma LeadOnPush(root: StepData, rest: seq<StepData>)
    requires AllLeadOn(rest)
    requires forall e <- root.edges :: e.targetStepId == "" || e.targetStepId in Ids(rest)
    ensures AllLeadOn([root] + rest)
  {
    forall i: nat | i < |[root] + rest|
      ensures LeadsOn([root] + rest, i)
    {
      if i == 0 {
        assert ([root] + rest)[1..] == rest;
      } else {
        assert LeadsOn(rest, i - 1);
        assert ([root] + rest)[i + 1..] == rest[i..];
      }
    }
  }

  lemma RootEdgesInside(n: Node, c: nat, omit: bool)
    requires forall call <- n.calls :: call.internalCall ==> call.targetNodeID == ""
    ensures forall e <- RootStep(n, c, omit).edges ::
      e.targetStepId == "" || e.targetStepId in Ids(CompileAll(n.children, c + 1, omit))
  {
    CallEdgesEmpty(n.calls);
    ChildEdgesToRoots(n.children, c + 1);
    RootsListed(n.children, c + 1, omit);
  }

  lemma LeadOnStep(ns: seq<Node>, c: nat, omit: bool)
    requires ns != []
    requires AllLeadOn(CompileAll(ns[0].children, c + 1, omit))
    requires AllLeadOn(CompileAll(ns[1..], c + Size(ns[0]), omit))
    requires forall call <- ns[0].calls :: call.internalCall ==> call.targetNodeID == ""
    ensures AllLeadOn(CompileAll(ns, c, omit))
  {
    hide *;
    var n := ns[0];
    RootEdgesInside(n, c, omit);
    CompileParts(ns, c, omit);
    LeadOnPush(RootStep(n, c, omit), CompileAll(n.children, c + 1, omit));
    LeadOnJoin([RootStep(n, c, omit)] + CompileAll(n.children, c + 1, omit), CompileAll(ns[1..], c + Size(n), omit));
  }

  lemma {:induction false} EdgesLeadOn(ns: seq<Node>, c: nat, omit: bool)
    requires NoInternalTargets(ns)
    decreases ns
    ensures AllLeadOn(CompileAll(ns, c, omit))
  {
    if ns != [] {
      hide *;
      PreorderParts(ns);
      EdgesLeadOn(ns[0].children, c + 1, omit);
      EdgesLeadOn(ns[1..], c + Size(ns[0]), omit);
      LeadOnStep(ns, c, omit);
    }
  }

  lemma PreorderParts(ns: seq<Node>)
    requires ns != [] && NoInternalTargets(ns)
    ensures NoInternalTargets(ns[0].children) && NoInternalTargets(ns[1..])
    ensures forall call <- ns[0].calls :: call.internalCall ==> call.targetNodeID == ""
  {
    var p := Preorder(ns);
    assert p[0] == ns[0];
    assert forall n <- Preorder(ns[0].children) :: n in p;
    assert forall n <- Preorder(ns[1..]) :: n in p;
  }

  function PlaceOf(ids: seq<string>, id: string): int {
    if ids == [] then 0 else if ids[0] == id then 0 else 1 + PlaceOf(ids[1..], id)
  }

  lemma {:induction false} PlaceOfAt(ids: seq<string>, i: nat)
    requires Distinct(ids) && i < |ids|
    ensures PlaceOf(ids, ids[i]) == i
  {
    if i == 0 {
    } else {
      assert ids[0] != ids[i] && ids[1..][i - 1] == ids[i];
      PlaceOfAt(ids[1..], i - 1);
    }
  }

  lemma ArcRises(steps: seq<StepData>, u: string, v: string)
    requires Distinct(Ids(steps)) && AllLeadOn(steps)
    requires Arc(EdgesOf(Stored(map[], steps)), u, v)
    ensures PlaceOf(Ids(steps), u) < PlaceOf(Ids(steps), v)
  {
    hide *;
    var i, j := ArcEnds(steps, u, v);
    PlaceOfAt(Ids(steps), i);
    PlaceOfAt(Ids(steps), j);
  }

  lemma ArcEnds(steps: seq<StepData>, u: string, v: string) returns (i: nat, j: nat)
    requires Distinct(Ids(steps)) && AllLeadOn(steps)
    requires Arc(EdgesOf(Stored(map[], steps)), u, v)
    ensures i < j < |steps| && Ids(steps)[i] == u && Ids(steps)[j] == v
  {
    hide Stored;
    StoredDistinct(steps);
    StoredKeys(steps);
    i :| i < |steps| && steps[i].id == u;
    assert LeadsOn(steps, i) && v in Ids(steps[i + 1..]);
    var k :| 0 <= k < |steps[i + 1..]| && steps[i + 1..][k].id == v;
    j := i + 1 + k;
  }

  /** A graph whose steps only lead on to later steps, under distinct IDs, has no cycle. */
  lemma LeadsOnAcyclic(steps: seq<StepData>)
    requires Distinct(Ids(steps)) && AllLeadOn(steps)
    ensures !exists c :: IsCycle(EdgesOf(Stored(map[], steps)), c)
  {
    var adj := EdgesOf(Stored(map[], steps));
    var rank := (id: string) => PlaceOf(Ids(steps), id);
    forall u, v | Arc(adj, u, v)
      ensures rank(u) < rank(v)
    {
      ArcRises(steps, u, v);
    }
    RankedIsAcyclic(adj, rank);
  }

  /** The detector reports nothing on a built graph, in whatever order it takes the steps. */
  lemma DetectorAccepts(ns: seq<Node>, c: nat, omit: bool, roots: seq<string>)
    requires Distinct(Ids(CompileAll(ns, c, omit))) && NoInternalTargets(ns)
    requires Enumerates(roots, EdgesOf(Stored(map[], CompileAll(ns, c, omit))))
    ensures Detect(EdgesOf(Stored(map[], CompileAll(ns, c, omit))), roots) == []
  {
    EdgesLeadOn(ns, c, omit);
    LeadsOnAcyclic(CompileAll(ns, c, omit));
    DetectCorrect(EdgesOf(Stored(map[], CompileAll(ns, c, omit))), roots);
  }
}
