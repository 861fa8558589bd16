/** What a built step carries: its own fields and, edge by edge, its calls and its children. */
module BuiltStepTheory {
  import opened Outcomes
  import opened StepGraph
  import opened Walking
  import opened WalkTheory
  import opened Cycles
  import opened Building
  import opened BuildTheory

  // ------------------------------------------------------------------ every step from its node

  ghost predicate FromNodes(steps: seq<StepData>, nodes: seq<Node>, c: nat, omit: bool) {
    |steps| == |nodes| && forall i: nat :: i < |steps| ==> steps[i] == RootStep(nodes[i], c + i, omit)
  }

  lemma FromNodesJoin(a: seq<StepData>, b: seq<StepData>, ns: seq<Node>, ms: seq<Node>, c: nat, omit: bool)
    requires FromNodes(a, ns, c, omit) && FromNodes(b, ms, c + |a|, omit)
    ensures FromNodes(a + b, ns + ms, c, omit)
  {
    hide RootStep;
    forall i: nat | i < |a + b|
      ensures (a + b)[i] == RootStep((ns + ms)[i], c + i, omit)
    {
      if i >= |a| {
        assert b[i - |a|] == RootStep(ms[i - |a|], c + |a| + (i - |a|), omit);
      }
    }
  }

  lemma FromRoot(n: Node, c: nat, omit: bool)
    ensures FromNodes([RootStep(n, c, omit)], [n], c, omit)
  {
    hide RootStep;
  }

  lemma FromNothing(c: nat, omit: bool)
    ensures FromNodes(CompileAll([], c, omit), Preorder([]), c, omit)
  {
  }

  /** The step at a place is compiled from the node at that place of the preorder, with the counter
      that stands there. */
  lemma {:induction false} StepFromNode(ns: seq<Node>, c: nat, omit: bool)
    decreases ns
    ensures FromNodes(CompileAll(ns, c, omit), Preorder(ns), c, omit)
  {
    hide *;
    if ns == [] {
      FromNothing(c, omit);
    } else {
      var n := ns[0];
      var inner, tail := CompileAll(n.children, c + 1, omit), CompileAll(ns[1..], c + Size(n), omit);
      StepFromNode(n.children, c + 1, omit);
      StepFromNode(ns[1..], c + Size(n), omit);
      FromRoot(n, c, omit);
      CompileParts(ns, c, omit);
      PreorderSplit(ns);
      SizeIs(n);
      FromNodesJoin([RootStep(n, c, omit)], inner, [n], Preorder(n.children), c, omit);
      FromNodesJoin([RootStep(n, c, omit)] + inner, tail, [n] + Preorder(n.children), Preorder(ns[1..]), c, omit);
    }
  }

  lemma PreorderSplit(ns: seq<Node>)
    requires ns != []
    ensures Preorder(ns) == [ns[0]] + Preorder(ns[0].children) + Preorder(ns[1..])
  {
  }

  lemma SizeIs(n: Node)
    ensures Size(n) == 1 + SizeAll(n.children)
  {
  }

  // ------------------------------------------------------------------ places of children

  lemma {:induction false} PreorderRootAt(ns: seq<Node>, j: nat)
    requires j < |ns|
    ensures SizeAll(ns[..j]) < |Preorder(ns)| && Preorder(ns)[SizeAll(ns[..j])] == ns[j]
  {
    hide *;
    PreorderSplit(ns);
    SizePrefix(ns, j);
    SizeIs(ns[0]);
    if j == 0 {
    } else {
      PreorderRootAt(ns[1..], j - 1);
      ElementBehind([ns[0]] + Preorder(ns[0].children), Preorder(ns[1..]), SizeAll(ns[1..][..j - 1]));
    }
  }

  lemma ElementBehind(a: seq<Node>, b: seq<Node>, i: nat)
    requires i < |b|
    ensures (a + b)[|a| + i] == b[i]
  {
  }

  /** The nodes below the node at place i follow it. */
  lemma {:induction false} PreorderBelow(ns: seq<Node>, i: nat)
    requires i < |Preorder(ns)|
    decreases ns
    ensures
      var n := Preorder(ns)[i];
      i + 1 + SizeAll(n.children) <= |Preorder(ns)|
      && Preorder(ns)[i + 1..i + 1 + SizeAll(n.children)] == Preorder(n.children)
  {
    hide *;
    if ns == [] {
      NoPreorder();
    } else {
      var inner, tail := Preorder(ns[0].children), Preorder(ns[1..]);
      PreorderSplit(ns);
      if i == 0 {
      } else if i <= |inner| {
        PreorderBelow(ns[0].children, i - 1);
        SliceMiddle([ns[0]], inner, tail, i - 1, SizeAll(inner[i - 1].children));
      } else {
        var k := i - 1 - |inner|;
        PreorderBelow(ns[1..], k);
        SliceMiddle([ns[0]] + inner, tail, [], k, SizeAll(tail[k].children));
        assert [ns[0]] + inner + tail + [] == [ns[0]] + inner + tail;
      }
    }
  }

  lemma NoPreorder()
    ensures Preorder([]) == []
  {
  }

  lemma SliceMiddle(a: seq<Node>, b: seq<Node>, d: seq<Node>, k: nat, size: nat)
    requires k + 1 + size <= |b|
    ensures (a + b + d)[|a| + k] == b[k]
    ensures (a + b + d)[|a| + k + 1..|a| + k + 1 + size] == b[k + 1..k + 1 + size]
  {
  }

  // ------------------------------------------------------------------ the edges

  /** The edge of a call: navigable and aimed at its target when the call is internal, and naming
      the package and the symbol when it is not. */
  ghost predicate IsCallEdge(e: StepEdge, call: CallRef) {
    && e.edgeLabel == CallInto && e.description == "calls " + call.pkg + "." + call.symbol
    && (e.navigable <==> call.internalCall)
    && (call.internalCall ==> e.targetStepId == call.targetNodeID && e.external == None)
    && (!call.internalCall ==> e.targetStepId == "" && e.external == Some(ExternalCall(call.pkg, call.symbol)))
  }

  lemma {:induction false} CallEdgesAre(calls: seq<CallRef>)
    ensures |CallEdges(calls)| == |calls|
    ensures forall k :: 0 <= k < |calls| ==> IsCallEdge(CallEdges(calls)[k], calls[k])
  {
    if calls == [] {
    } else {
      CallEdgesAre(calls[1..]);
    }
  }

  ghost predicate IsChildEdge(e: StepEdge, id: string) {
    e.targetStepId == id && e.edgeLabel == Next && e.navigable && e.description == "" && e.external == None
  }

  lemma {:induction false} ChildEdgeAt(ns: seq<Node>, c: nat, j: nat)
    requires j < |ns|
    ensures |ChildEdges(ns, c)| == |ns|
    ensures IsChildEdge(ChildEdges(ns, c)[j], IdOf(ns[j], c + SizeAll(ns[..j]) + 1))
  {
    hide CompileAll, IdOf, SizeAll;
    ChildOrder(ns, c, false, j);
    StepFromNode(ns, c, false);
    PreorderRootAt(ns, j);
  }

  /** The step kind of each node kind. */
  ghost predicate KindFits(node: NodeKind, step: StepKind) {
    && (step == Entry <==> node == FunctionNode)
    && (step == Conditional <==> node == ConditionalNode || node == SwitchNode)
    && (step == Loop <==> node == LoopNode)
    && (step == Assignment <==> node == AssignmentNode)
    && (step == Call <==> node == CallNode)
    && (step == Return <==> node == ReturnNode)
    && (step == Unspecified <==> node == BlockNode)
  }

  /** The place of the source, cut to 32 bits, and its text unless that is left out. */
  ghost predicate SpanFits(n: Node, span: SourceSpan, omit: bool) {
    && span.startLine == ToUint32(n.startLine) && span.endLine == ToUint32(n.endLine)
    && span.startColumn == ToUint32(n.startCol) && span.endColumn == ToUint32(n.endCol)
    && span.rawSource == if omit then "" else n.text
  }

  /** steps[i] carries the fields of the node n, and its edges are the calls of n, in order, and then
      the children of n, in order, each child at its place among the steps. */
  ghost predicate Carries(steps: seq<StepData>, i: nat, n: Node, omit: bool)
    requires i < |steps|
  {
    var s := steps[i];
    && s.labelText == n.labelText && KindFits(n.kind, s.kind) && !s.visited && s.hunkSpan == None
    && s.source.Some? && SpanFits(n, s.source.value, omit)
    && |s.edges| == |n.calls| + |n.children|
    && (forall k :: 0 <= k < |n.calls| ==> IsCallEdge(s.edges[k], n.calls[k]))
    && (forall j: nat :: j < |n.children| ==> ChildLinked(steps, i, n, j))
  }

  ghost predicate ChildLinked(steps: seq<StepData>, i: nat, n: Node, j: nat)
    requires i < |steps| && j < |n.children|
  {
    var place := i + 1 + SizeAll(n.children[..j]);
    place < |steps| && |n.calls| + j < |steps[i].edges|
    && IsChildEdge(steps[i].edges[|n.calls| + j], steps[place].id)
    && steps[place].labelText == n.children[j].labelText
  }

  /** Every step of a built forest, by the node it is built from. */
  lemma StepCarries(ns: seq<Node>, c: nat, omit: bool, i: nat)
    requires i < |Preorder(ns)|
    ensures |CompileAll(ns, c, omit)| == |Preorder(ns)|
    ensures CompileAll(ns, c, omit)[i].id == IdOf(Preorder(ns)[i], c + i + 1)
    ensures Carries(CompileAll(ns, c, omit), i, Preorder(ns)[i], omit)
  {
    hide CompileAll, Preorder, IdOf, CallEdges, ChildEdges, SizeAll, ChildLinked, IsCallEdge;
    var steps, n := CompileAll(ns, c, omit), Preorder(ns)[i];
    StepFromNode(ns, c, omit);
    assert steps[i] == RootStep(n, c + i, omit);
    CallEdgesAre(n.calls);
    ChildEdgesSize(n.children, c + i + 1);
    forall j: nat | j < |n.children|
      ensures ChildLinked(steps, i, n, j)
    {
      ChildIsLinked(ns, c, omit, i, j);
    }
  }

  lemma ChildEdgesSize(ns: seq<Node>, c: nat)
    ensures |ChildEdges(ns, c)| == |ns|
  {
    ChildEdgesLength(ns, c);
  }

  lemma ChildIsLinked(ns: seq<Node>, c: nat, omit: bool, i: nat, j: nat)
    requires i < |Preorder(ns)| && j < |Preorder(ns)[i].children|
    ensures |CompileAll(ns, c, omit)| == |Preorder(ns)|
    ensures ChildLinked(CompileAll(ns, c, omit), i, Preorder(ns)[i], j)
  {
    hide CompileAll, Preorder, IdOf, CallEdges, ChildEdges, SizeAll, IsCallEdge, IsChildEdge;
    var steps, n := CompileAll(ns, c, omit), Preorder(ns)[i];
    StepFromNode(ns, c, omit);
    assert steps[i] == RootStep(n, c + i, omit);
    CallEdgesAre(n.calls);
    ChildEdgeAt(n.children, c + i + 1, j);
    PreorderBelow(ns, i);
    PreorderRootAt(n.children, j);
    var off := SizeAll(n.children[..j]);
    assert Preorder(ns)[i + 1..i + 1 + SizeAll(n.children)][off] == Preorder(ns)[i + 1 + off];
    assert steps[i + 1 + off] == RootStep(n.children[j], c + (i + 1 + off), omit);
  }

  // ------------------------------------------------------------------ what can be followed

  function Internal(calls: seq<CallRef>): seq<CallRef> {
    if calls == [] then []
    else (if calls[0].internalCall then [calls[0]] else []) + Internal(calls[1..])
  }

  lemma {:induction false} NavigableCalls(calls: seq<CallRef>, more: seq<StepEdge>)
    ensures Navigable(CallEdges(calls) + more) == CallEdges(Internal(calls)) + Navigable(more)
  {
    hide *;
    NoCalls();
    if calls == [] {
      assert CallEdges(calls) + more == more;
      assert CallEdges(Internal(calls)) + Navigable(more) == Navigable(more);
    } else {
      var first, rest := CallEdge(calls[0]), CallEdges(calls[1..]) + more;
      NavigableCalls(calls[1..], more);
      CallsSplit(calls);
      assert [first] + CallEdges(calls[1..]) + more == [first] + rest;
      NavigableFirst(first, rest);
    }
  }

  lemma NoCalls()
    ensures CallEdges([]) == [] && Internal([]) == []
  {
  }

  lemma CallsSplit(calls: seq<CallRef>)
    requires calls != []
    ensures CallEdges(calls) == [CallEdge(calls[0])] + CallEdges(calls[1..])
    ensures CallEdge(calls[0]).navigable == calls[0].internalCall
    ensures CallEdges(Internal(calls)) ==
      (if calls[0].internalCall then [CallEdge(calls[0])] else []) + CallEdges(Internal(calls[1..]))
  {
    hide CallEdge, CallEdges, Internal;
    CallEdgesOfCons(calls);
    CallNavigable(calls[0]);
    InternalOfCons(calls);
    if calls[0].internalCall {
      var kept := [calls[0]] + Internal(calls[1..]);
      assert kept[1..] == Internal(calls[1..]);
      CallEdgesOfCons(kept);
    }
  }

  lemma CallEdgesOfCons(calls: seq<CallRef>)
    requires calls != []
    ensures CallEdges(calls) == [CallEdge(calls[0])] + CallEdges(calls[1..])
  {
    hide CallEdge;
  }

  lemma CallNavigable(call: CallRef)
    ensures CallEdge(call).navigable == call.internalCall
  {
  }

  lemma InternalOfCons(calls: seq<CallRef>)
    requires calls != []
    ensures calls[0].internalCall ==> Internal(calls) == [calls[0]] + Internal(calls[1..])
    ensures !calls[0].internalCall ==> Internal(calls) == Internal(calls[1..])
  {
  }

  lemma NavigableFirst(e: StepEdge, rest: seq<StepEdge>)
    ensures Navigable([e] + rest) == (if e.navigable then [e] else []) + Navigable(rest)
  {
    assert ([e] + rest)[1..] == rest;
  }

  lemma {:induction false} NavigableChildren(ns: seq<Node>, c: nat)
    ensures Navigable(ChildEdges(ns, c)) == ChildEdges(ns, c)
  {
    hide IdOf;
    if ns == [] {
    } else {
      assert ChildEdges(ns, c)[1..] == ChildEdges(ns[1..], c + Size(ns[0]));
      NavigableChildren(ns[1..], c + Size(ns[0]));
    }
  }

  /** The navigable edges of a built step are those of its internal calls and of all its children. */
  lemma NavigableOfStep(ns: seq<Node>, c: nat, omit: bool, i: nat)
    requires i < |Preorder(ns)|
    ensures |CompileAll(ns, c, omit)| == |Preorder(ns)|
    ensures
      var n, edges := Preorder(ns)[i], CompileAll(ns, c, omit)[i].edges;
      |n.calls| <= |edges| && Navigable(edges) == CallEdges(Internal(n.calls)) + edges[|n.calls|..]
  {
    hide CompileAll, Preorder, IdOf, CallEdges, ChildEdges, Navigable, SizeAll;
    var n := Preorder(ns)[i];
    StepFromNode(ns, c, omit);
    assert CompileAll(ns, c, omit)[i] == RootStep(n, c + i, omit);
    CallEdgesAre(n.calls);
    NavigableCalls(n.calls, ChildEdges(n.children, c + i + 1));
    NavigableChildren(n.children, c + i + 1);
    assert (CallEdges(n.calls) + ChildEdges(n.children, c + i + 1))[|n.calls|..] == ChildEdges(n.children, c + i + 1);
  }

  /** Forward from a built step with children leads to the step of its first child, which is the next
      one; from a step without children it fails. */
  lemma ForwardToFirstChild(ns: seq<Node>, c: nat, omit: bool, i: nat, ws: WalkState)
    requires i < |Preorder(ns)| && Distinct(Ids(CompileAll(ns, c, omit)))
    requires |CompileAll(ns, c, omit)| == |Preorder(ns)| && ws.current == CompileAll(ns, c, omit)[i].id
    ensures
      var steps, adj := CompileAll(ns, c, omit), EdgesOf(Stored(map[], CompileAll(ns, c, omit)));
      var m := Apply(adj, ws, GoForward);
      && (Preorder(ns)[i].children == [] ==> m == Move(ws, Err(NoSuchEdge)))
      && (Preorder(ns)[i].children != [] ==>
            i + 1 < |steps| && steps[i + 1].labelText == Preorder(ns)[i].children[0].labelText
            && ArrivesAt(adj, ws, steps[i + 1].id, m) && m.outcome.Ok?)
  {
    hide *;
    var steps, n := CompileAll(ns, c, omit), Preorder(ns)[i];
    StepCarries(ns, c, omit, i);
    FirstLink(steps, i, n, omit);
    StoredStep(steps, i);
    ForwardFrom(EdgesOf(Stored(map[], steps)), ws, steps, i, n);
    if n.children != [] {
      FirstLinked(steps, i, n);
      StoredStep(steps, i + 1);
      ForwardArrives(EdgesOf(Stored(map[], steps)), ws, steps[i + 1].id, Apply(EdgesOf(Stored(map[], steps)), ws, GoForward));
    }
  }

  lemma StoredStep(steps: seq<StepData>, i: nat)
    requires Distinct(Ids(steps)) && i < |steps|
    ensures steps[i].id in EdgesOf(Stored(map[], steps)) && EdgesOf(Stored(map[], steps))[steps[i].id] == steps[i].edges
  {
    StoredDistinct(steps);
  }

  /** The edges of a step with children: no NEXT edge among the calls, then one to the next step. */
  ghost predicate FirstChildNext(steps: seq<StepData>, i: nat, n: Node)
    requires i < |steps|
  {
    && n.children != [] && i + 1 < |steps| && steps[i + 1].labelText == n.children[0].labelText
    && FirstAt(steps[i].edges, Next, |n.calls|) && steps[i].edges[|n.calls|].targetStepId == steps[i + 1].id
  }

  lemma FirstLink(steps: seq<StepData>, i: nat, n: Node, omit: bool)
    requires i < |steps| && Carries(steps, i, n, omit)
    ensures n.children != [] ==> FirstChildNext(steps, i, n)
    ensures n.children == [] ==> forall k :: 0 <= k < |steps[i].edges| ==> !Matches(steps[i].edges[k], Next)
  {
    hide SizeAll;
    NothingBefore(n.children);
    if n.children != [] {
      assert ChildLinked(steps, i, n, 0);
    }
  }

  lemma FirstLinked(steps: seq<StepData>, i: nat, n: Node)
    requires i < |steps| && n.children != [] && FirstChildNext(steps, i, n)
    ensures i + 1 < |steps| && steps[i + 1].labelText == n.children[0].labelText
  {
  }

  lemma ForwardFrom(adj: Adjacency, ws: WalkState, steps: seq<StepData>, i: nat, n: Node)
    requires i < |steps| && ws.current == steps[i].id && ws.current in adj && adj[ws.current] == steps[i].edges
    requires n.children != [] ==> FirstChildNext(steps, i, n)
    requires n.children == [] ==> forall k :: 0 <= k < |steps[i].edges| ==> !Matches(steps[i].edges[k], Next)
    ensures n.children == [] ==> Apply(adj, ws, GoForward) == Move(ws, Err(NoSuchEdge))
    ensures n.children != [] ==> i + 1 < |steps| && ArrivesAt(adj, ws, steps[i + 1].id, Apply(adj, ws, GoForward))
  {
    hide Apply, ArrivesAt, FirstAt, Matches;
    ApplyMeans(adj, ws, GoForward);
  }

  lemma ForwardArrives(adj: Adjacency, ws: WalkState, id: string, m: Move)
    requires ArrivesAt(adj, ws, id, m) && id in adj
    ensures m.outcome.Ok?
  {
  }

  lemma NothingBefore(ns: seq<Node>)
    ensures SizeAll(ns[..0]) == 0
  {
  }
}
