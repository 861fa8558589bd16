/** Which of the given nodes end up in the graph, and what can be reached from its entry. */
module BuildCoverage {
  import opened Outcomes
  import opened StepGraph
  import opened Building
  import opened BuildTheory
  import opened Cycles
  import opened CycleTheory

  // ------------------------------------------------------------------ each function once

  predicate IsFirstFunction(nodes: seq<Node>, i: nat) {
    i < |nodes| && nodes[i].kind.FunctionNode? && forall j :: 0 <= j < i ==> !nodes[j].kind.FunctionNode?
  }

  /** What a caller can check before building: without a symbol no later function may share the
      first function's label; with one, some function must bear it, or the first node must not
      be a function. */
  ghost predicate Covering(nodes: seq<Node>, symbol: string) {
    if symbol == "" then
      forall i: nat, j: nat ::
        IsFirstFunction(nodes, i) && i < j < |nodes| && nodes[j].kind.FunctionNode? ==>
        nodes[i].labelText != nodes[j].labelText
    else
      (exists i :: 0 <= i < |nodes| && nodes[i].kind.FunctionNode? && nodes[i].labelText == symbol)
      || nodes == [] || !nodes[0].kind.FunctionNode?
  }

  predicate Skipped(nodes: seq<Node>, skip: Option<string>, i: nat)
    requires i < |nodes|
  {
    skip == Some(nodes[i].labelText)
  }

  function Occurs(places: seq<nat>, i: nat): nat {
    if places == [] then 0 else (if places[0] == i then 1 else 0) + Occurs(places[1..], i)
  }

  lemma {:induction false} OccursConcat(a: seq<nat>, b: seq<nat>, i: nat)
    ensures Occurs(a + b, i) == Occurs(a, i) + Occurs(b, i)
  {
    if a == [] {
      assert a + b == b;
    } else {
      assert (a + b)[1..] == a[1..] + b;
      OccursConcat(a[1..], b, i);
    }
  }

  lemma OccursPush(k: nat, rest: seq<nat>, i: nat)
    ensures Occurs([k] + rest, i) == (if i == k then 1 else 0) + Occurs(rest, i)
  {
    assert ([k] + rest)[1..] == rest;
  }

  lemma {:induction false} OthersOccur(nodes: seq<Node>, skip: Option<string>, k: nat, i: nat)
    requires k <= |nodes|
    ensures Occurs(Others(nodes, skip, k), i) ==
      if k <= i < |nodes| && nodes[i].kind.FunctionNode? && !Skipped(nodes, skip, i) then 1 else 0
    decreases |nodes| - k
  {
    if k < |nodes| {
      OthersOccur(nodes, skip, k + 1, i);
      OccursPush(k, Others(nodes, skip, k + 1), i);
    }
  }

  lemma {:induction false} EntriesOccur(nodes: seq<Node>, symbol: string, k: nat, i: nat)
    requires k <= |nodes| && symbol != ""
    ensures Occurs(Entries(nodes, symbol, k), i) ==
      if k <= i < |nodes| && nodes[i].kind.FunctionNode? && nodes[i].labelText == symbol then 1 else 0
    decreases |nodes| - k
  {
    if k < |nodes| {
      EntriesOccur(nodes, symbol, k + 1, i);
      OccursPush(k, Entries(nodes, symbol, k + 1), i);
    }
  }

  lemma {:induction false} EntriesNamed(nodes: seq<Node>, symbol: string, k: nat)
    requires k <= |nodes| && symbol != ""
    ensures forall j :: 0 <= j < |Entries(nodes, symbol, k)| ==>
      nodes[Entries(nodes, symbol, k)[j]].labelText == symbol
    decreases |nodes| - k
  {
    if k < |nodes| {
      EntriesNamed(nodes, symbol, k + 1);
    }
  }

  lemma {:induction false} EntriesUnnamed(nodes: seq<Node>, k: nat)
    requires k <= |nodes| && forall j :: 0 <= j < k ==> !nodes[j].kind.FunctionNode?
    ensures
      var e := Entries(nodes, "", k);
      if e == [] then forall j :: 0 <= j < |nodes| ==> !nodes[j].kind.FunctionNode?
      else |e| == 1 && IsFirstFunction(nodes, e[0])
    decreases |nodes| - k
  {
    if k < |nodes| && !nodes[k].kind.FunctionNode? {
      EntriesUnnamed(nodes, k + 1);
    }
  }

  /** How often the builder builds the top-level node i. */
  function Times(nodes: seq<Node>, symbol: string, i: nat): nat {
    Occurs(Plan(nodes, symbol), i)
  }

  lemma TimesSum(nodes: seq<Node>, symbol: string, i: nat)
    ensures Times(nodes, symbol, i) ==
      Occurs(Entries(nodes, symbol, 0), i)
      + Occurs(Others(nodes, EntryLabel(nodes, symbol), 0), i)
      + Occurs(Fallback(nodes, symbol), i)
  {
    var e, o := Entries(nodes, symbol, 0), Others(nodes, EntryLabel(nodes, symbol), 0);
    OccursConcat(e + o, Fallback(nodes, symbol), i);
    OccursConcat(e, o, i);
  }

  /** With a symbol that some function bears, every function is built once, whatever the labels. */
  lemma TimesNamed(nodes: seq<Node>, symbol: string, i: nat)
    requires symbol != "" && i < |nodes| && nodes[i].kind.FunctionNode?
    ensures Times(nodes, symbol, i) ==
      if Entries(nodes, symbol, 0) == [] && i == 0 then 2 else 1
  {
    TimesSum(nodes, symbol, i);
    EntriesNamed(nodes, symbol, 0);
    EntriesOccur(nodes, symbol, 0, i);
    OthersOccur(nodes, EntryLabel(nodes, symbol), 0, i);
  }

  lemma TimesUnnamed(nodes: seq<Node>, i: nat)
    requires i < |nodes| && nodes[i].kind.FunctionNode?
    ensures
      var e := Entries(nodes, "", 0);
      |e| == 1 && IsFirstFunction(nodes, e[0]) &&
      Times(nodes, "", i) == if i == e[0] || nodes[i].labelText != nodes[e[0]].labelText then 1 else 0
  {
    EntriesUnnamed(nodes, 0);
    TimesSum(nodes, "", i);
    OthersOccur(nodes, EntryLabel(nodes, ""), 0, i);
    var e := Entries(nodes, "", 0);
    assert Occurs(e, i) == if i == e[0] then 1 else 0 by {
      assert e[1..] == [];
    }
  }

  lemma HasEntryIff(nodes: seq<Node>, symbol: string)
    requires symbol != ""
    ensures Entries(nodes, symbol, 0) != [] <==>
      exists i :: 0 <= i < |nodes| && nodes[i].kind.FunctionNode? && nodes[i].labelText == symbol
  {
    var e := Entries(nodes, symbol, 0);
    EntriesNamed(nodes, symbol, 0);
    if e != [] {
      assert nodes[e[0]].labelText == symbol;
    }
    if i :| 0 <= i < |nodes| && nodes[i].kind.FunctionNode? && nodes[i].labelText == symbol {
      EntriesOccur(nodes, symbol, 0, i);
    }
  }

  /** Every top-level function is built exactly once if and only if the caller's check passes. */
  lemma EachFunctionOnce(nodes: seq<Node>, symbol: string)
    ensures
      (forall i: nat :: i < |nodes| && nodes[i].kind.FunctionNode? ==> Times(nodes, symbol, i) == 1)
      <==> Covering(nodes, symbol)
  {
    if symbol == "" {
      forall i: nat | i < |nodes| && nodes[i].kind.FunctionNode?
        ensures Covering(nodes, symbol) ==> Times(nodes, symbol, i) == 1
      {
        TimesUnnamed(nodes, i);
        var f := Entries(nodes, "", 0)[0];
        assert IsFirstFunction(nodes, f) && f <= i;
      }
      forall i: nat, j: nat | IsFirstFunction(nodes, i) && i < j < |nodes| && nodes[j].kind.FunctionNode? &&
          nodes[i].labelText == nodes[j].labelText
        ensures Times(nodes, symbol, j) != 1
      {
        TimesUnnamed(nodes, j);
        var f := Entries(nodes, "", 0)[0];
        assert IsFirstFunction(nodes, f) && f == i;
      }
    } else {
      HasEntryIff(nodes, symbol);
      forall i: nat | i < |nodes| && nodes[i].kind.FunctionNode?
        ensures Times(nodes, symbol, i) == if Entries(nodes, symbol, 0) == [] && i == 0 then 2 else 1
      {
        TimesNamed(nodes, symbol, i);
      }
    }
  }

  // ------------------------------------------------------------------ what is built, in order

  ghost predicate Rising(places: seq<nat>) {
    forall j, k :: 0 <= j < k < |places| ==> places[j] < places[k]
  }

  lemma {:induction false} EntriesRise(nodes: seq<Node>, symbol: string, k: nat)
    requires k <= |nodes|
    ensures Rising(Entries(nodes, symbol, k))
    decreases |nodes| - k
  {
    if k < |nodes| {
      EntriesRise(nodes, symbol, k + 1);
    }
  }

  lemma {:induction false} OthersRise(nodes: seq<Node>, skip: Option<string>, k: nat)
    requires k <= |nodes|
    ensures Rising(Others(nodes, skip, k))
    decreases |nodes| - k
  {
    if k < |nodes| {
      OthersRise(nodes, skip, k + 1);
    }
  }

  predicate IsNamedFunction(nodes: seq<Node>, symbol: string, i: nat) {
    i < |nodes| && nodes[i].kind.FunctionNode? && nodes[i].labelText == symbol
  }

  /** The node that becomes the entry: without a symbol the first function, with one the last function
      that bears it, and the first node when there is no such function. */
  ghost predicate IsEntry(nodes: seq<Node>, symbol: string, e: nat) {
    if symbol == "" then
      IsFirstFunction(nodes, e) || (e == 0 && forall i :: 0 <= i < |nodes| ==> !nodes[i].kind.FunctionNode?)
    else
      (IsNamedFunction(nodes, symbol, e) && forall i :: e < i < |nodes| ==> !IsNamedFunction(nodes, symbol, i))
      || (e == 0 && forall i: nat :: i < |nodes| ==> !IsNamedFunction(nodes, symbol, i))
  }

  lemma {:induction false} OccursIn(places: seq<nat>, i: nat)
    ensures Occurs(places, i) > 0 <==> i in places
  {
    if places == [] {
    } else {
      OccursIn(places[1..], i);
    }
  }

  lemma EntryChosen(nodes: seq<Node>, symbol: string)
    requires nodes != []
    ensures IsEntry(nodes, symbol, Plan(nodes, symbol)[EntryPlace(nodes, symbol)])
  {
    hide Others;
    var e := Entries(nodes, symbol, 0);
    if symbol == "" {
      EntriesUnnamed(nodes, 0);
    } else {
      EntriesNamed(nodes, symbol, 0);
      EntriesRise(nodes, symbol, 0);
      forall i: nat | IsNamedFunction(nodes, symbol, i)
        ensures i in e
      {
        EntriesOccur(nodes, symbol, 0, i);
        OccursIn(e, i);
      }
    }
  }

  /** The builder's order: first the functions that the symbol names, or the first function, as they
      come; then, as they come, all functions that do not share the entry's label; then the first
      node, if no entry was found. */
  lemma PlanIs(nodes: seq<Node>, symbol: string) returns (named: seq<nat>, others: seq<nat>, fallback: seq<nat>)
    ensures Plan(nodes, symbol) == named + others + fallback && Rising(named) && Rising(others)
    ensures forall k :: 0 <= k < |named| ==> named[k] < |nodes|
    ensures symbol != "" ==> forall i: nat :: i in named <==> IsNamedFunction(nodes, symbol, i)
    ensures symbol == "" ==> forall i: nat :: i in named <==> IsFirstFunction(nodes, i)
    ensures forall i: nat :: i in others <==>
      i < |nodes| && nodes[i].kind.FunctionNode?
      && (named != [] ==> nodes[i].labelText != nodes[named[|named| - 1]].labelText)
    ensures fallback == if named == [] && nodes != [] then [0] else []
  {
    hide Entries, Others, Occurs;
    named, others, fallback :=
      Entries(nodes, symbol, 0), Others(nodes, EntryLabel(nodes, symbol), 0), Fallback(nodes, symbol);
    EntriesRise(nodes, symbol, 0);
    OthersRise(nodes, EntryLabel(nodes, symbol), 0);
    forall i: nat
      ensures i in others <==>
        i < |nodes| && nodes[i].kind.FunctionNode?
        && (named != [] ==> nodes[i].labelText != nodes[named[|named| - 1]].labelText)
    {
      OthersOccur(nodes, EntryLabel(nodes, symbol), 0, i);
      OccursIn(others, i);
    }
    if symbol == "" {
      EntriesUnnamed(nodes, 0);
    } else {
      forall i: nat
        ensures i in named <==> IsNamedFunction(nodes, symbol, i)
      {
        EntriesOccur(nodes, symbol, 0, i);
        OccursIn(named, i);
      }
    }
  }

  // ------------------------------------------------------------------ the number of steps

  /** The nodes in the trees at these places. */
  function Total(nodes: seq<Node>, places: seq<nat>): nat
    requires forall k :: 0 <= k < |places| ==> places[k] < |nodes|
  {
    if places == [] then 0 else Size(nodes[places[0]]) + Total(nodes, places[1..])
  }

  /** The nodes in the trees of the functions from place k on. */
  function FunctionNodes(nodes: seq<Node>, k: nat): nat
    requires k <= |nodes|
    decreases |nodes| - k
  {
    if k == |nodes| then 0
    else (if nodes[k].kind.FunctionNode? then Size(nodes[k]) else 0) + FunctionNodes(nodes, k + 1)
  }

  lemma {:induction false} PickTotal(nodes: seq<Node>, places: seq<nat>)
    requires forall k :: 0 <= k < |places| ==> places[k] < |nodes|
    ensures SizeAll(Pick(nodes, places)) == Total(nodes, places)
  {
    if places == [] {
    } else {
      assert Pick(nodes, places)[1..] == Pick(nodes, places[1..]);
      PickTotal(nodes, places[1..]);
    }
  }

  lemma TotalPush(nodes: seq<Node>, k: nat, rest: seq<nat>)
    requires k < |nodes| && forall j :: 0 <= j < |rest| ==> rest[j] < |nodes|
    ensures Total(nodes, [k] + rest) == Size(nodes[k]) + Total(nodes, rest)
  {
    assert ([k] + rest)[1..] == rest;
  }

  lemma {:induction false} TotalConcat(nodes: seq<Node>, a: seq<nat>, b: seq<nat>)
    requires forall k :: 0 <= k < |a| ==> a[k] < |nodes|
    requires forall k :: 0 <= k < |b| ==> b[k] < |nodes|
    ensures Total(nodes, a + b) == Total(nodes, a) + Total(nodes, b)
  {
    if a == [] {
      assert a + b == b;
    } else {
      assert (a + b)[1..] == a[1..] + b;
      TotalConcat(nodes, a[1..], b);
    }
  }

  lemma {:induction false} TotalNamed(nodes: seq<Node>, symbol: string, k: nat)
    requires k <= |nodes| && symbol != ""
    ensures Total(nodes, Entries(nodes, symbol, k)) + Total(nodes, Others(nodes, Some(symbol), k))
      == FunctionNodes(nodes, k)
    decreases |nodes| - k
  {
    if k < |nodes| {
      TotalNamed(nodes, symbol, k + 1);
      TotalPush(nodes, k, Entries(nodes, symbol, k + 1));
      TotalPush(nodes, k, Others(nodes, Some(symbol), k + 1));
    }
  }

  /** first is the only function with its label. */
  lemma {:induction false} TotalUnnamed(nodes: seq<Node>, first: nat, k: nat)
    requires k <= |nodes| && first < |nodes| && nodes[first].kind.FunctionNode?
    requires forall j :: 0 <= j < |nodes| && j != first && nodes[j].kind.FunctionNode? ==>
      nodes[j].labelText != nodes[first].labelText
    ensures (if k <= first then Size(nodes[first]) else 0)
      + Total(nodes, Others(nodes, Some(nodes[first].labelText), k)) == FunctionNodes(nodes, k)
    decreases |nodes| - k
  {
    if k < |nodes| {
      TotalUnnamed(nodes, first, k + 1);
      TotalPush(nodes, k, Others(nodes, Some(nodes[first].labelText), k + 1));
    }
  }

  lemma PlanParts(nodes: seq<Node>, symbol: string)
    requires Entries(nodes, symbol, 0) != []
    ensures
      var e := Entries(nodes, symbol, 0);
      Plan(nodes, symbol) == e + Others(nodes, Some(nodes[e[|e| - 1]].labelText), 0)
  {
  }

  lemma PlanTotal(nodes: seq<Node>, symbol: string)
    requires Covering(nodes, symbol) && Entries(nodes, symbol, 0) != []
    ensures Total(nodes, Plan(nodes, symbol)) == FunctionNodes(nodes, 0)
  {
    hide Entries, Others, Plan, Total, FunctionNodes;
    var e := Entries(nodes, symbol, 0);
    PlanParts(nodes, symbol);
    TotalConcat(nodes, e, Others(nodes, Some(nodes[e[|e| - 1]].labelText), 0));
    if symbol == "" {
      EntriesUnnamed(nodes, 0);
      SoleFirst(nodes, e[0]);
      TotalUnnamed(nodes, e[0], 0);
      TotalOne(nodes, e[0]);
      assert e == [e[0]];
    } else {
      EntriesNamed(nodes, symbol, 0);
      TotalNamed(nodes, symbol, 0);
    }
  }

  lemma TotalOne(nodes: seq<Node>, k: nat)
    requires k < |nodes|
    ensures Total(nodes, [k]) == Size(nodes[k])
  {
    assert [k][1..] == [];
  }

  lemma SoleFirst(nodes: seq<Node>, first: nat)
    requires Covering(nodes, "") && IsFirstFunction(nodes, first)
    ensures forall j :: 0 <= j < |nodes| && j != first && nodes[j].kind.FunctionNode? ==>
      nodes[j].labelText != nodes[first].labelText
  {
  }

  /** Without an entry function every function is built by the second loop. */
  lemma {:induction false} TotalUnskipped(nodes: seq<Node>, k: nat)
    requires k <= |nodes|
    ensures Total(nodes, Others(nodes, None, k)) == FunctionNodes(nodes, k)
    decreases |nodes| - k
  {
    if k < |nodes| {
      TotalUnskipped(nodes, k + 1);
      TotalPush(nodes, k, Others(nodes, None, k + 1));
    }
  }

  /** The nodes of the tree that the fallback builds, if it does. */
  function FallbackNodes(nodes: seq<Node>, symbol: string): nat {
    if Entries(nodes, symbol, 0) == [] && nodes != [] then Size(nodes[0]) else 0
  }

  lemma PlanFallback(nodes: seq<Node>, symbol: string)
    requires Entries(nodes, symbol, 0) == []
    ensures Total(nodes, Plan(nodes, symbol)) == FunctionNodes(nodes, 0) + FallbackNodes(nodes, symbol)
  {
    hide Total, FunctionNodes;
    TotalUnskipped(nodes, 0);
    var others := Others(nodes, None, 0);
    if nodes == [] {
      assert Plan(nodes, symbol) == others;
    } else {
      assert Plan(nodes, symbol) == others + [0];
      TotalConcat(nodes, others, [0]);
      TotalOne(nodes, 0);
    }
  }

  /** When the check passes, the graph holds one step for each node of each function's tree, and of
      the tree that the fallback builds, if and only if the names of the nodes that are built are
      apart. */
  lemma StepCount(nodes: seq<Node>, symbol: string, omit: bool)
    requires Covering(nodes, symbol)
    ensures
      |Stored(map[], BuiltSteps(nodes, symbol, omit))| == FunctionNodes(nodes, 0) + FallbackNodes(nodes, symbol)
      <==> NamesApart(Pick(nodes, Plan(nodes, symbol)), 0)
  {
    hide Total, FunctionNodes, Plan, Pick, NamesApart, CompileAll, Stored, SizeAll, Entries;
    if Entries(nodes, symbol, 0) == [] {
      PlanFallback(nodes, symbol);
    } else {
      PlanTotal(nodes, symbol);
    }
    PickTotal(nodes, Plan(nodes, symbol));
    CountIffDistinct(BuiltSteps(nodes, symbol, omit));
    DistinctIffNamesApart(Pick(nodes, Plan(nodes, symbol)), 0, omit);
  }

  // ------------------------------------------------------------------ reachability

  ghost predicate Reaches(adj: Adjacency, u: string, v: string) {
    exists p :: IsWalk(adj, p) && p[0] == u && p[|p| - 1] == v
  }

  lemma ReachesSelf(adj: Adjacency, u: string)
    ensures Reaches(adj, u, u)
  {
    assert IsWalk(adj, [u]);
  }

  lemma ReachesVia(adj: Adjacency, u: string, w: string, v: string)
    requires Arc(adj, u, w) && Reaches(adj, w, v)
    ensures Reaches(adj, u, v)
  {
    var p :| IsWalk(adj, p) && p[0] == w && p[|p| - 1] == v;
    var q := [u] + p;
    forall i: nat | i + 1 < |q|
      ensures Link(adj, q, i)
    {
      if i > 0 {
        assert Link(adj, p, i - 1);
      }
    }
    assert IsWalk(adj, q) && q[0] == u && q[|q| - 1] == v;
  }

  /** The graph holds these steps with these edges. */
  ghost predicate HoldsStep(adj: Adjacency, step: StepData) {
    step.id in adj && adj[step.id] == step.edges
  }

  ghost predicate Holds(adj: Adjacency, steps: seq<StepData>) {
    forall i :: 0 <= i < |steps| ==> HoldsStep(adj, steps[i])
  }

  ghost predicate ReachedFrom(adj: Adjacency, roots: seq<string>, id: string) {
    exists r :: r in roots && Reaches(adj, r, id)
  }

  ghost predicate AllReached(adj: Adjacency, steps: seq<StepData>, roots: seq<string>) {
    forall i :: 0 <= i < |steps| ==> ReachedFrom(adj, roots, steps[i].id)
  }

  lemma {:induction false} RootArc(n: Node, c: nat, omit: bool, adj: Adjacency, id: string)
    requires HoldsStep(adj, RootStep(n, c, omit)) && id in RootIds(n.children, c + 1)
    ensures Arc(adj, RootStep(n, c, omit).id, id)
  {
    var k := ChildEdgeFor(n.children, c + 1, id);
    var edges := RootStep(n, c, omit).edges;
    assert edges[|CallEdges(n.calls)| + k].targetStepId == id;
  }

  lemma {:induction false} ChildEdgeFor(ns: seq<Node>, c: nat, id: string) returns (k: nat)
    requires id in RootIds(ns, c)
    ensures id != "" && k < |ChildEdges(ns, c)| && ChildEdges(ns, c)[k].targetStepId == id
  {
    if id == IdOf(ns[0], c + 1) {
      k := 0;
    } else {
      k := ChildEdgeFor(ns[1..], c + Size(ns[0]), id);
      k := k + 1;
    }
  }

  lemma ReachedJoin(adj: Adjacency, root: StepData, inner: seq<StepData>, tail: seq<StepData>,
                    innerRoots: seq<string>, tailRoots: seq<string>)
    requires AllReached(adj, inner, innerRoots) && AllReached(adj, tail, tailRoots)
    requires forall id <- innerRoots :: Arc(adj, root.id, id)
    ensures AllReached(adj, [root] + inner + tail, [root.id] + tailRoots)
  {
    var s, roots := [root] + inner + tail, [root.id] + tailRoots;
    forall i | 0 <= i < |s|
      ensures ReachedFrom(adj, roots, s[i].id)
    {
      if i == 0 {
        ReachesSelf(adj, root.id);
        assert roots[0] == root.id;
      } else if i <= |inner| {
        var x := inner[i - 1].id;
        assert ReachedFrom(adj, innerRoots, x);
        var r :| r in innerRoots && Reaches(adj, r, x);
        ReachesVia(adj, root.id, r, x);
        assert roots[0] == root.id;
      } else {
        var x := tail[i - 1 - |inner|].id;
        assert ReachedFrom(adj, tailRoots, x);
        var r :| r in tailRoots && Reaches(adj, r, x);
        assert r in roots;
      }
    }
  }

  lemma NothingToReach(ns: seq<Node>, c: nat, omit: bool, adj: Adjacency)
    requires ns == []
    ensures AllReached(adj, CompileAll(ns, c, omit), RootIds(ns, c))
  {
    assert CompileAll(ns, c, omit) == [];
  }

  lemma {:induction false} RootsReachAll(ns: seq<Node>, c: nat, omit: bool, adj: Adjacency)
    requires Holds(adj, CompileAll(ns, c, omit))
    decreases ns
    ensures AllReached(adj, CompileAll(ns, c, omit), RootIds(ns, c))
  {
    hide *;
    if ns == [] {
      NothingToReach(ns, c, omit, adj);
    } else {
      ReachParts(ns, c, omit, adj);
      RootsReachAll(ns[0].children, c + 1, omit, adj);
      RootsReachAll(ns[1..], c + Size(ns[0]), omit, adj);
      ReachStep(ns, c, omit, adj);
    }
  }

  lemma ReachParts(ns: seq<Node>, c: nat, omit: bool, adj: Adjacency)
    requires ns != [] && Holds(adj, CompileAll(ns, c, omit))
    ensures HoldsStep(adj, RootStep(ns[0], c, omit))
    ensures Holds(adj, CompileAll(ns[0].children, c + 1, omit))
    ensures Holds(adj, CompileAll(ns[1..], c + Size(ns[0]), omit))
  {
    hide *;
    CompileParts(ns, c, omit);
    HoldsSplit(adj, [RootStep(ns[0], c, omit)], CompileAll(ns[0].children, c + 1, omit),
               CompileAll(ns[1..], c + Size(ns[0]), omit));
  }

  lemma HoldsSplit(adj: Adjacency, a: seq<StepData>, b: seq<StepData>, d: seq<StepData>)
    requires Holds(adj, a + b + d)
    ensures Holds(adj, a) && Holds(adj, b) && Holds(adj, d)
    ensures a != [] ==> HoldsStep(adj, a[0])
  {
    var s := a + b + d;
    forall i | 0 <= i < |a| ensures HoldsStep(adj, a[i]) { assert s[i] == a[i]; }
    forall i | 0 <= i < |b| ensures HoldsStep(adj, b[i]) { assert s[|a| + i] == b[i]; }
    forall i | 0 <= i < |d| ensures HoldsStep(adj, d[i]) { assert s[|a| + |b| + i] == d[i]; }
  }

  lemma ReachStep(ns: seq<Node>, c: nat, omit: bool, adj: Adjacency)
    requires ns != [] && HoldsStep(adj, RootStep(ns[0], c, omit))
    requires AllReached(adj, CompileAll(ns[0].children, c + 1, omit), RootIds(ns[0].children, c + 1))
    requires AllReached(adj, CompileAll(ns[1..], c + Size(ns[0]), omit), RootIds(ns[1..], c + Size(ns[0])))
    ensures AllReached(adj, CompileAll(ns, c, omit), RootIds(ns, c))
  {
    hide *;
    var n, c2 := ns[0], c + Size(ns[0]);
    forall id | id in RootIds(n.children, c + 1)
      ensures Arc(adj, RootStep(n, c, omit).id, id)
    {
      RootArc(n, c, omit, adj, id);
    }
    CompileParts(ns, c, omit);
    ReachedJoin(adj, RootStep(n, c, omit), CompileAll(n.children, c + 1, omit), CompileAll(ns[1..], c2, omit),
                RootIds(n.children, c + 1), RootIds(ns[1..], c2));
  }

  /** The steps of the p-th tree of a forest. */
  lemma {:induction false} TreeAt(ns: seq<Node>, c: nat, omit: bool, p: nat)
    requires p < |ns|
    ensures
      var from := SizeAll(ns[..p]);
      from + Size(ns[p]) <= SizeAll(ns) &&
      CompileAll(ns, c, omit)[from..from + Size(ns[p])] == CompileAll([ns[p]], c + from, omit)
  {
    hide *;
    if p == 0 {
      FirstTree(ns, c, omit);
    } else {
      TreeAt(ns[1..], c + Size(ns[0]), omit, p - 1);
      LaterTree(ns, c, omit, p);
    }
  }

  lemma FirstTree(ns: seq<Node>, c: nat, omit: bool)
    requires ns != []
    ensures SizeAll(ns[..0]) == 0 && Size(ns[0]) <= SizeAll(ns)
    ensures CompileAll(ns, c, omit)[0..Size(ns[0])] == CompileAll([ns[0]], c, omit)
  {
    SizeParts(ns);
    CompileParts(ns, c, omit);
    SingleTree(ns[0], c, omit);
    hide RootStep;
  }

  lemma LaterTree(ns: seq<Node>, c: nat, omit: bool, p: nat)
    requires 0 < p < |ns|
    requires
      var from := SizeAll(ns[1..][..p - 1]);
      from + Size(ns[p]) <= SizeAll(ns[1..]) &&
      CompileAll(ns[1..], c + Size(ns[0]), omit)[from..from + Size(ns[p])]
        == CompileAll([ns[p]], c + Size(ns[0]) + from, omit)
    ensures
      var from := SizeAll(ns[..p]);
      from + Size(ns[p]) <= SizeAll(ns) &&
      CompileAll(ns, c, omit)[from..from + Size(ns[p])] == CompileAll([ns[p]], c + from, omit)
  {
    hide *;
    var size, from := Size(ns[0]), SizeAll(ns[1..][..p - 1]);
    SizeParts(ns);
    SizeParts(ns[..p]);
    assert ns[..p][0] == ns[0] && ns[..p][1..] == ns[1..][..p - 1];
    CompileParts(ns, c, omit);
    SliceAfter(CompileAll(ns, c, omit), [RootStep(ns[0], c, omit)] + CompileAll(ns[0].children, c + 1, omit),
               CompileAll(ns[1..], c + size, omit), from, Size(ns[p]));
  }

  lemma SliceAfter(s: seq<StepData>, a: seq<StepData>, b: seq<StepData>, from: nat, size: nat)
    requires s == a + b && from + size <= |b|
    ensures s[|a| + from..|a| + from + size] == b[from..from + size]
  {
    assert s[|a|..] == b;
  }

  lemma {:induction false} WalkStaysInside(adj: Adjacency, steps: seq<StepData>, p: seq<string>, k: nat)
    requires Holds(adj, steps) && AllLeadOn(steps)
    requires IsWalk(adj, p) && p[0] in Ids(steps) && k < |p|
    ensures p[k] in Ids(steps)
  {
    if k == 0 {
    } else {
      WalkStaysInside(adj, steps, p, k - 1);
      assert Link(adj, p, k - 1);
      var i :| 0 <= i < |steps| && steps[i].id == p[k - 1];
      assert HoldsStep(adj, steps[i]) && LeadsOn(steps, i);
      var j :| 0 <= j < |steps[i + 1..]| && steps[i + 1..][j].id == p[k];
      assert Ids(steps)[i + 1 + j] == p[k];
    }
  }

  lemma StoredHolds(steps: seq<StepData>)
    requires Distinct(Ids(steps))
    ensures Holds(EdgesOf(Stored(map[], steps)), steps)
  {
    StoredDistinct(steps);
  }

  /** The steps built for the node that becomes the entry. */
  function EntryTree(nodes: seq<Node>, symbol: string, omit: bool): seq<StepData>
    requires nodes != []
  {
    var p := EntryPlace(nodes, symbol);
    CompileAll([nodes[Plan(nodes, symbol)[p]]], CounterAt(nodes, symbol, p), omit)
  }

  lemma EntryTreeBuilt(nodes: seq<Node>, symbol: string, omit: bool)
    requires nodes != []
    ensures
      var from := CounterAt(nodes, symbol, EntryPlace(nodes, symbol));
      var tree := EntryTree(nodes, symbol, omit);
      && tree != [] && from + |tree| <= |BuiltSteps(nodes, symbol, omit)|
      && BuiltSteps(nodes, symbol, omit)[from..from + |tree|] == tree
      && tree[0].id == EntryId(nodes, symbol)
      && RootIds([nodes[Plan(nodes, symbol)[EntryPlace(nodes, symbol)]]], from) == [tree[0].id]
  {
    hide CompileAll, SizeAll, Plan, EntryPlace, Size, RootIds, ChildEdges;
    var ns := Pick(nodes, Plan(nodes, symbol));
    var p := EntryPlace(nodes, symbol);
    TreeAt(ns, 0, omit, p);
    SingleTree(ns[p], SizeAll(ns[..p]), omit);
  }

  /** The entry is in the graph whenever there is a node at all, duplicate IDs or not. */
  lemma EntryInGraph(nodes: seq<Node>, symbol: string, omit: bool)
    ensures EntryId(nodes, symbol) in Stored(map[], BuiltSteps(nodes, symbol, omit)) <==> nodes != []
  {
    var steps := BuiltSteps(nodes, symbol, omit);
    StoredKeys(steps);
    if nodes == [] {
      assert steps == [];
    } else {
      EntryTreeBuilt(nodes, symbol, omit);
      var from := CounterAt(nodes, symbol, EntryPlace(nodes, symbol));
      assert steps[from] == EntryTree(nodes, symbol, omit)[0];
      assert Ids(steps)[from] == EntryId(nodes, symbol);
    }
  }

  /** From the entry every step of the entry function's tree can be reached, whatever its calls. */
  lemma EntryTreeReached(nodes: seq<Node>, symbol: string, omit: bool, id: string)
    requires nodes != [] && Distinct(Ids(BuiltSteps(nodes, symbol, omit)))
    requires id in Ids(EntryTree(nodes, symbol, omit))
    ensures Reaches(EdgesOf(Stored(map[], BuiltSteps(nodes, symbol, omit))), EntryId(nodes, symbol), id)
  {
    hide *;
    var ns, p := Pick(nodes, Plan(nodes, symbol)), EntryPlace(nodes, symbol);
    var steps, tree := BuiltSteps(nodes, symbol, omit), EntryTree(nodes, symbol, omit);
    var adj := EdgesOf(Stored(map[], steps));
    var from := CounterAt(nodes, symbol, p);
    EntryTreeIs(nodes, symbol, omit);
    StoredHolds(steps);
    EntryTreeBuilt(nodes, symbol, omit);
    SliceHolds(adj, steps, from, |tree|);
    RootsReachAll([ns[p]], from, omit, adj);
    TreeReached(adj, tree, EntryId(nodes, symbol), id);
  }

  lemma TreeReached(adj: Adjacency, tree: seq<StepData>, entry: string, id: string)
    requires AllReached(adj, tree, [entry]) && id in Ids(tree)
    ensures Reaches(adj, entry, id)
  {
    var i :| 0 <= i < |tree| && tree[i].id == id;
    assert ReachedFrom(adj, [entry], tree[i].id);
  }

  /** Without internal calls the steps of the entry function's tree are exactly those reached. */
  lemma EntryReachesItsTree(nodes: seq<Node>, symbol: string, omit: bool, id: string)
    requires nodes != [] && Distinct(Ids(BuiltSteps(nodes, symbol, omit)))
    requires NoInternalTargets(Pick(nodes, Plan(nodes, symbol)))
    ensures
      Reaches(EdgesOf(Stored(map[], BuiltSteps(nodes, symbol, omit))), EntryId(nodes, symbol), id)
      <==> id in Ids(EntryTree(nodes, symbol, omit))
  {
    hide *;
    var ns, p := Pick(nodes, Plan(nodes, symbol)), EntryPlace(nodes, symbol);
    var steps, tree := BuiltSteps(nodes, symbol, omit), EntryTree(nodes, symbol, omit);
    var adj := EdgesOf(Stored(map[], steps));
    var from := CounterAt(nodes, symbol, p);
    EntryTreeIs(nodes, symbol, omit);
    StoredHolds(steps);
    EntryTreeBuilt(nodes, symbol, omit);
    SliceHolds(adj, steps, from, |tree|);
    NoTargetsInside(ns, p);
    EdgesLeadOn([ns[p]], from, omit);
    EntryReach(adj, tree, EntryId(nodes, symbol), id);
    if id in Ids(tree) {
      EntryTreeReached(nodes, symbol, omit, id);
    }
  }

  lemma SliceHolds(adj: Adjacency, steps: seq<StepData>, from: nat, size: nat)
    requires Holds(adj, steps) && from + size <= |steps|
    ensures Holds(adj, steps[from..from + size])
  {
  }

  lemma EntryTreeIs(nodes: seq<Node>, symbol: string, omit: bool)
    requires nodes != []
    ensures
      var ns, p := Pick(nodes, Plan(nodes, symbol)), EntryPlace(nodes, symbol);
      p < |ns| && ns[p] == nodes[Plan(nodes, symbol)[p]] &&
      EntryTree(nodes, symbol, omit) == CompileAll([ns[p]], CounterAt(nodes, symbol, p), omit) &&
      BuiltSteps(nodes, symbol, omit) == CompileAll(ns, 0, omit)
  {
    hide CompileAll, SizeAll, Plan, EntryPlace, CounterAt;
  }

  lemma EntryReach(adj: Adjacency, tree: seq<StepData>, entry: string, id: string)
    requires tree != [] && tree[0].id == entry
    requires Holds(adj, tree) && AllLeadOn(tree)
    ensures Reaches(adj, entry, id) ==> id in Ids(tree)
  {
    if Reaches(adj, entry, id) {
      var w :| IsWalk(adj, w) && w[0] == entry && w[|w| - 1] == id;
      assert Ids(tree)[0] == entry;
      WalkStaysInside(adj, tree, w, |w| - 1);
    }
  }

  lemma NoTargetsFirst(ns: seq<Node>)
    requires ns != [] && NoInternalTargets(ns)
    ensures NoInternalTargets([ns[0]])
  {
    assert Preorder([ns[0]]) == [ns[0]] + Preorder(ns[0].children);
    assert Preorder(ns) == Preorder([ns[0]]) + Preorder(ns[1..]);
    hide Preorder;
    assert forall n <- Preorder([ns[0]]) :: n in Preorder(ns);
  }

  lemma {:induction false} NoTargetsInside(ns: seq<Node>, p: nat)
    requires p < |ns| && NoInternalTargets(ns)
    ensures NoInternalTargets([ns[p]])
  {
    hide *;
    if p == 0 {
      NoTargetsFirst(ns);
    } else {
      PreorderParts(ns);
      NoTargetsInside(ns[1..], p - 1);
    }
  }
}
