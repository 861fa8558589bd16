/** The builder object: the program's form of the functions in Building.dfy. Steps are fresh
    objects; a step is added to the graph before its children are built and gets its edges after. */
module BuilderObject {
  import opened Outcomes
  import opened StepGraph
  import opened Building
  import opened BuildTheory

  function Datas(steps: seq<Step>): (r: seq<StepData>)
    reads steps
    ensures |r| == |steps|
  {
    if steps == [] then [] else [steps[0].Data()] + Datas(steps[1..])
  }

  function StoredSteps(m: map<string, Step>, steps: seq<Step>): map<string, Step> {
    if steps == [] then m
    else StoredSteps(m, steps[..|steps| - 1])[steps[|steps| - 1].id := steps[|steps| - 1]]
  }

  lemma {:induction false} DatasConcat(a: seq<Step>, b: seq<Step>)
    ensures Datas(a + b) == Datas(a) + Datas(b)
  {
    if a == [] {
      assert a + b == b;
    } else {
      assert (a + b)[1..] == a[1..] + b;
      DatasConcat(a[1..], b);
    }
  }

  lemma {:induction false} StoredStepsConcat(m: map<string, Step>, a: seq<Step>, b: seq<Step>)
    ensures StoredSteps(m, a + b) == StoredSteps(StoredSteps(m, a), b)
  {
    if b == [] {
      assert a + b == a;
    } else {
      assert (a + b)[..|a + b| - 1] == a + b[..|b| - 1];
      StoredStepsConcat(m, a, b[..|b| - 1]);
    }
  }

  lemma {:induction false} ViewOfStored(steps: seq<Step>)
    ensures
      var m := StoredSteps(map[], steps);
      (map id | id in m :: m[id].Data()) == Stored(map[], Datas(steps))
    ensures forall id <- StoredSteps(map[], steps) :: StoredSteps(map[], steps)[id] in steps
  {
    if steps == [] {
    } else {
      var front, last := steps[..|steps| - 1], steps[|steps| - 1];
      assert steps == front + [last];
      ViewOfStored(front);
      DatasConcat(front, [last]);
      assert [last][1..] == [] && Datas([last]) == [last.Data()];
      assert Datas(steps)[..|steps| - 1] == Datas(front);
    }
  }

  lemma DatasOne(step: Step)
    ensures Datas([step]) == [step.Data()]
  {
    assert [step][1..] == [];
  }

  lemma FirstData(steps: seq<Step>)
    requires steps != []
    ensures Datas(steps)[0] == steps[0].Data()
  {
  }

  lemma StoredNone(m: map<string, Step>)
    ensures StoredSteps(m, []) == m && Datas([]) == []
  {
  }

  lemma StoredOne(m: map<string, Step>, step: Step)
    ensures StoredSteps(m, [step]) == m[step.id := step]
  {
    assert [step][..0] == [];
  }

  lemma PickSnoc(nodes: seq<Node>, done: seq<nat>, k: nat)
    requires k < |nodes| && forall j :: 0 <= j < |done| ==> done[j] < |nodes|
    ensures Pick(nodes, done + [k]) == Pick(nodes, done) + [nodes[k]]
  {
  }

  class Builder {
    const g: Graph
    const omitRawSource: bool
    var counter: nat

    constructor (omitRawSource: bool)
      ensures this.omitRawSource == omitRawSource && counter == 0
      ensures fresh(g) && g.steps == map[] && g.entryID == "" && g.Valid()
    {
      this.omitRawSource := omitRawSource;
      counter := 0;
      g := new Graph();
    }

    method NextID() returns (id: string)
      modifies this`counter
      ensures counter == old(counter) + 1 && id == FreshId(counter)
    {
      counter := counter + 1;
      id := FreshId(counter);
    }

    /** Builds n and everything below it; added lists the new steps in the order of their adding. */
    method BuildNode(n: Node) returns (step: Step, ghost added: seq<Step>)
      requires g.Valid()
      modifies this`counter, g`steps
      decreases n, 1
      ensures g.Valid() && counter == old(counter) + Size(n)
      ensures added != [] && added[0] == step && forall s <- added :: fresh(s)
      ensures Datas(added) == Compile(n, old(counter), omitRawSource)
      ensures g.steps == StoredSteps(old(g.steps), added)
    {
      hide CompileAll, ChildEdges, SizeAll, Datas, StoredSteps, FreshId, CallEdge;
      var id := NextID();
      if n.id != "" {
        id := n.id;
      }
      step := new Step(id, n.labelText, KindOf(n.kind), Some(SpanOf(n, omitRawSource)), None);
      g.Add(step);
      StoredOne(old(g.steps), step);
      AddCallEdges(step, n.calls);
      assert step.edges == CallEdges(n.calls);
      added := [];
      if |n.children| > 0 {
        var edges;
        edges, added := BuildChildren(n.children);
        ghost var below := Datas(added);
        assert step !in added;
        step.edges := step.edges + edges;
        assert Datas(added) == below;
      } else {
        EmptyForest(counter, omitRawSource);
        StoredNone(g.steps);
        assert n.children == [] && CallEdges(n.calls) + [] == CallEdges(n.calls);
      }
      assert step.Data() == RootStep(n, old(counter), omitRawSource);
      DatasConcat([step], added);
      DatasOne(step);
      StoredStepsConcat(old(g.steps), [step], added);
      added := [step] + added;
    }

    /** The loop over the calls of a node. */
    method AddCallEdges(step: Step, calls: seq<CallRef>)
      modifies step`edges
      ensures step.edges == old(step.edges) + CallEdges(calls)
    {
      assert calls[0..] == calls;
      for i := 0 to |calls|
        invariant step.edges + CallEdges(calls[i..]) == old(step.edges) + CallEdges(calls)
      {
        assert calls[i..][1..] == calls[i + 1..];
        step.edges := step.edges + [CallEdge(calls[i])];
      }
    }

    method BuildChildren(children: seq<Node>) returns (edges: seq<StepEdge>, ghost added: seq<Step>)
      requires g.Valid()
      modifies this`counter, g`steps
      decreases children, 0
      ensures g.Valid() && counter == old(counter) + SizeAll(children)
      ensures edges == ChildEdges(children, old(counter)) && forall s <- added :: fresh(s)
      ensures Datas(added) == CompileAll(children, old(counter), omitRawSource)
      ensures g.steps == StoredSteps(old(g.steps), added)
    {
      hide CompileAll, ChildEdges, SizeAll, Datas, StoredSteps, FreshId, CallEdge;
      edges, added := [], [];
      EmptyForest(counter, omitRawSource);
      StoredNone(g.steps);
      assert children[..0] == [];
      for i := 0 to |children|
        invariant g.Valid() && counter == old(counter) + SizeAll(children[..i])
        invariant edges == ChildEdges(children[..i], old(counter)) && forall s <- added :: fresh(s)
        invariant Datas(added) == CompileAll(children[..i], old(counter), omitRawSource)
        invariant g.steps == StoredSteps(old(g.steps), added)
      {
        var step, more := BuildNode(children[i]);
        edges := edges + [NextEdge(step.id)];
        assert children[..i + 1] == children[..i] + [children[i]];
        CompileSnoc(children[..i], children[i], old(counter), omitRawSource);
        SingleTree(children[i], old(counter) + SizeAll(children[..i]), omitRawSource);
        DatasConcat(added, more);
        FirstData(more);
        StoredStepsConcat(old(g.steps), added, more);
        added := added + more;
      }
      assert children[..|children|] == children;
    }

    /** The top-level nodes at the places in done have been built, in that order. */
    ghost predicate Built(nodes: seq<Node>, done: seq<nat>, added: seq<Step>)
      reads this, g, added
      requires forall k :: 0 <= k < |done| ==> done[k] < |nodes|
    {
      && g.Valid() && counter == SizeAll(Pick(nodes, done))
      && Datas(added) == CompileAll(Pick(nodes, done), 0, omitRawSource)
      && g.steps == StoredSteps(map[], added)
    }

    method BuildTop(nodes: seq<Node>, k: nat, ghost done: seq<nat>, ghost added: seq<Step>)
      returns (step: Step, ghost more: seq<Step>)
      requires k < |nodes| && forall j :: 0 <= j < |done| ==> done[j] < |nodes|
      requires Built(nodes, done, added)
      modifies this`counter, g`steps
      ensures Built(nodes, done + [k], added + more) && forall s <- more :: fresh(s)
      ensures step.labelText == nodes[k].labelText
      ensures step.id == IdOf(nodes[k], SizeAll(Pick(nodes, done)) + 1)
    {
      hide CompileAll, ChildEdges, SizeAll, Datas, StoredSteps, FreshId, CallEdge, Pick;
      step, more := BuildNode(nodes[k]);
      PickSnoc(nodes, done, k);
      CompileSnoc(Pick(nodes, done), nodes[k], 0, omitRawSource);
      SingleTree(nodes[k], SizeAll(Pick(nodes, done)), omitRawSource);
      DatasConcat(added, more);
      FirstData(more);
      StoredStepsConcat(map[], added, more);
    }

    /** The first loop over the top-level nodes. */
    method BuildEntries(nodes: seq<Node>, entrySymbol: string)
      returns (entryStep: Option<Step>, ghost added: seq<Step>)
      requires Built(nodes, [], [])
      modifies this`counter, g`steps
      ensures Built(nodes, Entries(nodes, entrySymbol, 0), added) && forall s <- added :: fresh(s)
      ensures EntryIs(entryStep, nodes, Entries(nodes, entrySymbol, 0))
    {
      hide CompileAll, SizeAll, Datas, StoredSteps, FreshId, Pick, IdOf, Built, EntryIs;
      EntryUnseen(nodes);
      entryStep, added := None, [];
      ghost var done: seq<nat> := [];
      for k := 0 to |nodes|
        invariant forall j :: 0 <= j < |done| ==> done[j] < |nodes|
        invariant Built(nodes, done, added) && forall s <- added :: fresh(s)
        invariant done + Entries(nodes, entrySymbol, k) == Entries(nodes, entrySymbol, 0)
        invariant EntryIs(entryStep, nodes, done)
      {
        if !nodes[k].kind.FunctionNode? {
          continue;
        }
        if entrySymbol == "" || nodes[k].labelText == entrySymbol {
          var step, more := BuildTop(nodes, k, done, added);
          entryStep := Some(step);
          EntrySeen(step, nodes, done, k);
          done, added := done + [k], added + more;
          if entrySymbol == "" {
            assert done == Entries(nodes, entrySymbol, 0);
            break;
          }
        }
      }
      assert done + [] == done;
      assert done == Entries(nodes, entrySymbol, 0);
    }

    /** The second loop: every function that does not bear the entry's label. */
    method BuildOthers(nodes: seq<Node>, entryStep: Option<Step>, ghost entries: seq<nat>, ghost before: seq<Step>)
      returns (ghost added: seq<Step>)
      requires forall j :: 0 <= j < |entries| ==> entries[j] < |nodes|
      requires Built(nodes, entries, before)
      modifies this`counter, g`steps
      ensures Built(nodes, entries + Others(nodes, LabelOf(entryStep), 0), before + added)
      ensures forall s <- added :: fresh(s)
    {
      hide CompileAll, SizeAll, Datas, StoredSteps, FreshId, Pick, IdOf, Built;
      added := [];
      ghost var done: seq<nat> := entries;
      assert before + [] == before;
      for k := 0 to |nodes|
        invariant forall j :: 0 <= j < |done| ==> done[j] < |nodes|
        invariant Built(nodes, done, before + added) && forall s <- added :: fresh(s)
        invariant done + Others(nodes, LabelOf(entryStep), k) == entries + Others(nodes, LabelOf(entryStep), 0)
      {
        if !nodes[k].kind.FunctionNode? {
          continue;
        }
        if entryStep.Some? && nodes[k].labelText == entryStep.value.labelText {
          continue;
        }
        var step, more := BuildTop(nodes, k, done, before + added);
        assert before + added + more == before + (added + more);
        done, added := done + [k], added + more;
      }
      assert done + [] == done;
    }

    /** Both loops and the fallback. */
    method BuildAll(nodes: seq<Node>, entrySymbol: string)
      returns (entryStep: Option<Step>, ghost added: seq<Step>)
      requires Built(nodes, [], [])
      modifies this`counter, g`steps
      ensures Built(nodes, Plan(nodes, entrySymbol), added) && forall s <- added :: fresh(s)
      ensures EntryId(nodes, entrySymbol) == if entryStep.Some? then entryStep.value.id else ""
    {
      hide CompileAll, SizeAll, Datas, StoredSteps, Stored, FreshId, Pick, IdOf, Entries, Others, Built, EntryId;
      PlanParts(nodes, entrySymbol);
      EntryIdFound(nodes, entrySymbol);
      entryStep, added := BuildEntries(nodes, entrySymbol);
      ghost var entries := Entries(nodes, entrySymbol, 0);
      assert LabelOf(entryStep) == EntryLabel(nodes, entrySymbol);
      ghost var rest := BuildOthers(nodes, entryStep, entries, added);
      added := added + rest;
      if entryStep.None? && |nodes| > 0 {
        var step, more := BuildTop(nodes, 0, entries + Others(nodes, EntryLabel(nodes, entrySymbol), 0), added);
        entryStep := Some(step);
        added := added + more;
      } else {
        assert Plan(nodes, entrySymbol) == entries + Others(nodes, EntryLabel(nodes, entrySymbol), 0);
      }
    }

    lemma BuiltView(nodes: seq<Node>, done: seq<nat>, added: seq<Step>)
      requires forall k :: 0 <= k < |done| ==> done[k] < |nodes|
      requires Built(nodes, done, added)
      ensures g.Valid()
      ensures g.View() == Stored(map[], CompileAll(Pick(nodes, done), 0, omitRawSource))
    {
      hide CompileAll, SizeAll, Datas, StoredSteps, Stored, Pick;
      ViewOfStored(added);
    }

    lemma NothingBuilt(nodes: seq<Node>)
      requires g.Valid() && g.steps == map[] && counter == 0
      ensures Built(nodes, [], [])
    {
      assert Pick(nodes, []) == [];
    }
  }

  function LabelOf(entryStep: Option<Step>): Option<string> {
    if entryStep.Some? then Some(entryStep.value.labelText) else None
  }

  /** Converts top-level nodes into a step graph. An empty symbol selects the first function. */
  method Build(nodes: seq<Node>, omitRawSource: bool, entrySymbol: string) returns (g: Graph)
    ensures fresh(g) && g.Valid()
    ensures g.View() == Stored(map[], BuiltSteps(nodes, entrySymbol, omitRawSource))
    ensures g.entryID == EntryId(nodes, entrySymbol)
  {
    hide CompileAll, SizeAll, Datas, StoredSteps, Stored, Pick, Plan, EntryId, Builder.Built;
    var b := new Builder(omitRawSource);
    g := b.g;
    b.NothingBuilt(nodes);
    var entryStep, added := b.BuildAll(nodes, entrySymbol);
    b.BuiltView(nodes, Plan(nodes, entrySymbol), added);
    if entryStep.Some? {
      g.entryID := entryStep.value.id;
    }
  }

  /** The entry found so far is the step of the last place in done. */
  ghost predicate EntryIs(entry: Option<Step>, nodes: seq<Node>, done: seq<nat>)
    requires forall j :: 0 <= j < |done| ==> done[j] < |nodes|
  {
    if done == [] then entry.None?
    else
      var last := |done| - 1;
      entry.Some? && entry.value.labelText == nodes[done[last]].labelText &&
      entry.value.id == IdOf(nodes[done[last]], SizeAll(Pick(nodes, done[..last])) + 1)
  }

  lemma EntryUnseen(nodes: seq<Node>)
    ensures EntryIs(None, nodes, [])
  {
  }

  lemma EntrySeen(step: Step, nodes: seq<Node>, done: seq<nat>, k: nat)
    requires k < |nodes| && forall j :: 0 <= j < |done| ==> done[j] < |nodes|
    requires step.labelText == nodes[k].labelText
    requires step.id == IdOf(nodes[k], SizeAll(Pick(nodes, done)) + 1)
    ensures EntryIs(Some(step), nodes, done + [k])
  {
    hide IdOf, SizeAll, Pick;
    assert (done + [k])[..|done|] == done;
  }

  lemma PlanParts(nodes: seq<Node>, symbol: string)
    ensures
      var e, o := Entries(nodes, symbol, 0), Others(nodes, EntryLabel(nodes, symbol), 0);
      Plan(nodes, symbol) == e + o + (if e == [] && nodes != [] then [0] else [])
  {
    hide Entries, Others;
  }

  /** The entry is the last node the first loop builds, or else the fallback. */
  lemma EntryIdFound(nodes: seq<Node>, symbol: string)
    ensures
      var e, o := Entries(nodes, symbol, 0), Others(nodes, EntryLabel(nodes, symbol), 0);
      EntryId(nodes, symbol) ==
      if e != [] then IdOf(nodes[e[|e| - 1]], SizeAll(Pick(nodes, e[..|e| - 1])) + 1)
      else if nodes != [] then IdOf(nodes[0], SizeAll(Pick(nodes, e + o)) + 1)
      else ""
  {
    hide IdOf, SizeAll, Others, Entries, Pick;
    var e, o, plan := Entries(nodes, symbol, 0), Others(nodes, EntryLabel(nodes, symbol), 0), Plan(nodes, symbol);
    if e != [] {
      PickPrefix(nodes, plan, |e| - 1);
      assert plan[..|e| - 1] == e[..|e| - 1] && plan[|e| - 1] == e[|e| - 1];
    } else if nodes != [] {
      PickPrefix(nodes, plan, |e + o|);
      assert plan == e + o + [0] && plan[..|e + o|] == e + o;
    }
  }

  lemma PickPrefix(nodes: seq<Node>, places: seq<nat>, k: nat)
    requires k <= |places| && forall j :: 0 <= j < |places| ==> places[j] < |nodes|
    ensures Pick(nodes, places[..k]) == Pick(nodes, places)[..k]
  {
  }
}
