/** The step graph of a review: one step per hunk, chained in file and hunk order. */
module ReviewGraph {
  import opened Outcomes
  import opened StepGraph
  import opened Text
  import opened Decimals
  import Building
  import P = Patches
  import opened Orderers

  /** A hunk and the file it belongs to. */
  datatype Placed = Placed(path: string, hunk: P.Hunk)

  function Places(path: string, hunks: seq<P.Hunk>): seq<Placed> {
    seq(|hunks|, i requires 0 <= i < |hunks| => Placed(path, hunks[i]))
  }

  /** All hunks, file by file. */
  function Flat(files: seq<ReviewFile>): seq<Placed> {
    if files == [] then []
    else Flat(files[..|files| - 1]) + Places(files[|files| - 1].path, files[|files| - 1].hunks)
  }

  function StepId(path: string, newStart: int): string {
    "hunk:" + path + ":" + Signed(newStart)
  }

  function IdOf(p: Placed): string {
    StepId(p.path, p.hunk.newRange.start)
  }

  function IdsOf(ps: seq<Placed>): (ids: seq<string>)
    ensures |ids| == |ps| && forall i :: 0 <= i < |ps| ==> ids[i] == IdOf(ps[i])
  {
    seq(|ps|, i requires 0 <= i < |ps| => IdOf(ps[i]))
  }

  /** 64-bit signed arithmetic. */
  function Wrap64(x: int): int {
    (x + 0x8000_0000_0000_0000) % 0x1_0000_0000_0000_0000 - 0x8000_0000_0000_0000
  }

  const CONTEXT_LINES := 5

  function ExtractContextLines(lines: seq<string>, start: int, end: int): string {
    var from := if start < 0 then 0 else start;
    var to := if end > |lines| then |lines| else end;
    if from >= to then "" else Join(lines[from..to])
  }

  /** What the client sent along, and the file contents that could be fetched. */
  datatype Sources = Sources(fileLines: map<string, seq<string>>, omitRaw: bool) {
    function LinesOf(path: string): seq<string> {
      if path in fileLines then fileLines[path] else []
    }
  }

  function SpanOf(p: Placed, src: Sources): HunkSpan {
    var h := p.hunk;
    var lines := src.LinesOf(p.path);
    var start, after := h.newRange.start, h.newRange.start + h.newRange.count;
    HunkSpan(
      p.path, ToUint32(h.oldRange.start), ToUint32(h.oldRange.count), ToUint32(start), ToUint32(h.newRange.count),
      if src.omitRaw then "" else h.rawDiff,
      if lines == [] then ""
      else ExtractContextLines(lines, Wrap64(start - CONTEXT_LINES - 1), Wrap64(start - 1)),
      if lines == [] then ""
      else ExtractContextLines(lines, Wrap64(after - 1), Wrap64(after + CONTEXT_LINES - 1)))
  }

  /** The step of a hunk before it is linked to the next one. */
  function Unlinked(p: Placed, src: Sources): StepData {
    StepData(IdOf(p), p.path + ":" + Signed(p.hunk.newRange.start), HunkStep, None, Some(SpanOf(p, src)), [], false)
  }

  /** The steps in the order of the hunks, each with its edge to the next. */
  function HunkSteps(ps: seq<Placed>, src: Sources): (steps: seq<StepData>)
    ensures |steps| == |ps|
    ensures forall i :: 0 <= i < |ps| ==> steps[i] == Unlinked(ps[i], src).(edges := LinkAt(ps, i))
  {
    seq(|ps|, i requires 0 <= i < |ps| => Unlinked(ps[i], src).(edges := LinkAt(ps, i)))
  }

  function LinkAt(ps: seq<Placed>, i: nat): seq<StepEdge> {
    if i + 1 < |ps| then [NextEdge(IdOf(ps[i + 1]))] else []
  }

  /** The graph of the hunks: of two steps with one ID the later one stays. */
  function GraphOf(ps: seq<Placed>, src: Sources): map<string, StepData> {
    Building.Stored(map[], HunkSteps(ps, src))
  }

  function EntryOf(ps: seq<Placed>): string {
    if ps == [] then "" else IdOf(ps[0])
  }

  /** For every path, the ID of its first hunk. */
  function FileEntries(ps: seq<Placed>): map<string, string> {
    if ps == [] then map[]
    else
      var before := FileEntries(ps[..|ps| - 1]);
      var last := ps[|ps| - 1];
      if last.path in before then before else before[last.path := IdOf(last)]
  }

  // ------------------------------------------------------------------ the program's loops

  /** What the loops keep true of the graph after the hunks ps: prev is the step of the last one. */
  ghost predicate Chained(g: Graph, ps: seq<Placed>, src: Sources, prev: Option<Step>)
    reads g, g.steps.Values
  {
    && g.Valid() && g.View() == GraphOf(ps, src) && g.entryID == EntryOf(ps)
    && (prev.None? <==> ps == [])
    && (prev.Some? ==> prev.value.id == IdOf(ps[|ps| - 1]) && prev.value.id in g.steps && g.steps[prev.value.id] == prev.value)
  }

  /** The new last hunk s, linked from the one before it. */
  lemma GraphSnoc(ps: seq<Placed>, p: Placed, src: Sources)
    ensures
      var link := [NextEdge(IdOf(p))];
      GraphOf(ps + [p], src) ==
      if ps == [] then map[IdOf(p) := Unlinked(p, src)]
      else GraphOf(ps, src)[IdOf(ps[|ps| - 1]) := Unlinked(ps[|ps| - 1], src).(edges := link)][IdOf(p) := Unlinked(p, src)]
  {
    hide IdOf, Unlinked, Building.Stored;
    var steps := HunkSteps(ps + [p], src);
    UnlinkedId(p, src);
    assert steps[|ps|] == Unlinked(p, src) && steps[..|ps| + 1] == steps;
    StoredTake(steps, |ps|);
    if ps != [] {
      var n := |ps| - 1;
      var last := Unlinked(ps[n], src);
      var linked := last.(edges := [NextEdge(IdOf(p))]);
      UnlinkedId(ps[n], src);
      assert steps[n] == linked;
      StoredTake(steps, n);
      var before := HunkSteps(ps, src);
      assert before[n] == last && before[..n + 1] == before && before[..n] == steps[..n];
      StoredTake(before, n);
      var m := Building.Stored(map[], steps[..n]);
      assert m[IdOf(ps[n]) := linked] == m[IdOf(ps[n]) := last][IdOf(ps[n]) := linked];
    }
  }

  lemma StoredTake(steps: seq<StepData>, n: nat)
    requires n < |steps|
    ensures Building.Stored(map[], steps[..n + 1]) == Building.Stored(map[], steps[..n])[steps[n].id := steps[n]]
    ensures Building.Stored(map[], steps[..0]) == map[]
  {
    assert steps[..n + 1][..n] == steps[..n];
  }

  lemma UnlinkedId(p: Placed, src: Sources)
    ensures Unlinked(p, src).id == IdOf(p) && Unlinked(p, src).edges == []
  {
  }

  /** Appends an edge to a step that may or may not still be the one stored under its ID. */
  method Link(g: Graph, step: Step, edge: StepEdge)
    requires g.Valid()
    modifies step`edges
    ensures g.Valid()
    ensures g.View() ==
      if step.id in g.steps && g.steps[step.id] == step then
        old(g.View())[step.id := old(step.Data()).(edges := old(step.edges) + [edge])]
      else old(g.View())
  {
    step.edges := step.edges + [edge];
  }

  /** The body of the inner loop: makes the step of hunk p, adds it, and links it. */
  method AddHunk(g: Graph, prevStep: Option<Step>, p: Placed, src: Sources, ghost ps: seq<Placed>) returns (step: Step)
    requires Chained(g, ps, src, prevStep)
    modifies g, g.steps.Values`edges
    ensures fresh(step) && g.steps == old(g.steps)[step.id := step]
    ensures Chained(g, ps + [p], src, Some(step))
  {
    hide Unlinked, GraphOf, IdOf, StepId, SpanOf, Signed;
    ghost var view := g.View();
    NonEmptyId(p);
    UnlinkedId(p, src);
    var id := StepId(p.path, p.hunk.newRange.start);
    step := new Step(id, p.path + ":" + Signed(p.hunk.newRange.start), HunkStep, None, Some(SpanOf(p, src)));
    assert step.Data() == Unlinked(p, src) by {
      NewStepData(p, src);
    }
    g.Add(step);
    if g.entryID == "" {
      g.entryID := id;
    }
    assert g.View() == view[id := Unlinked(p, src)];
    if prevStep.Some? {
      PrevData(ps, src);
      UnlinkedId(ps[|ps| - 1], src);
      assert prevStep.value.Data() == view[prevStep.value.id];
      assert g.steps[prevStep.value.id] == prevStep.value <==> prevStep.value.id != id;
      Link(g, prevStep.value, NextEdge(id));
      NonEmptyId(ps[0]);
      assert (ps + [p])[0] == ps[0];
      assert [] + [NextEdge(id)] == [NextEdge(id)];
      Updates(view, prevStep.value.id, Unlinked(ps[|ps| - 1], src).(edges := [NextEdge(id)]), id, Unlinked(p, src));
    }
    EmptyGraph(src);
    GraphSnoc(ps, p, src);
  }

  /** Two updates in either order, or the later one alone on one key. */
  lemma Updates<K, V>(m: map<K, V>, a: K, x: V, b: K, y: V)
    ensures a != b ==> m[b := y][a := x] == m[a := x][b := y]
    ensures a == b ==> m[b := y] == m[a := x][b := y]
  {
  }

  lemma EmptyGraph(src: Sources)
    ensures GraphOf([], src) == map[]
  {
  }

  lemma NewStepData(p: Placed, src: Sources)
    ensures
      StepData(StepId(p.path, p.hunk.newRange.start), p.path + ":" + Signed(p.hunk.newRange.start), HunkStep, None,
               Some(SpanOf(p, src)), [], false) == Unlinked(p, src)
  {
  }

  lemma NonEmptyId(p: Placed)
    ensures IdOf(p) != "" && IdOf(p) == StepId(p.path, p.hunk.newRange.start)
  {
  }

  lemma PrevData(ps: seq<Placed>, src: Sources)
    requires ps != []
    ensures IdOf(ps[|ps| - 1]) in GraphOf(ps, src)
    ensures GraphOf(ps, src)[IdOf(ps[|ps| - 1])] == Unlinked(ps[|ps| - 1], src)
  {
    assert HunkSteps(ps, src)[|ps| - 1] == Unlinked(ps[|ps| - 1], src);
  }

  lemma PlacesSnoc(path: string, hunks: seq<P.Hunk>, j: nat)
    requires j < |hunks|
    ensures Places(path, hunks[..j + 1]) == Places(path, hunks[..j]) + [Placed(path, hunks[j])]
  {
  }

  lemma FlatSnoc(files: seq<ReviewFile>, i: nat)
    requires i < |files|
    ensures Flat(files[..i + 1]) == Flat(files[..i]) + Places(files[i].path, files[i].hunks)
  {
    assert files[..i + 1][..i] == files[..i];
  }

  method BuildHunkGraph(files: seq<ReviewFile>, src: Sources)
    returns (g: Graph, fileEntryStepIDs: map<string, string>, orderedStepIDs: seq<string>)
    ensures fresh(g) && g.Valid() && forall id <- g.steps :: fresh(g.steps[id])
    ensures g.View() == GraphOf(Flat(files), src) && g.entryID == EntryOf(Flat(files))
    ensures fileEntryStepIDs == FileEntries(Flat(files)) && orderedStepIDs == IdsOf(Flat(files))
  {
    hide GraphOf, Flat, FileEntries, EntryOf, Chained, Places, IdsOf, IdOf;
    g := new Graph();
    fileEntryStepIDs, orderedStepIDs := map[], [];
    var prevStep: Option<Step> := None;
    NothingBuilt(files, src);
    ghost var ps: seq<Placed> := [];
    EmptyChain(g, src);
    for i := 0 to |files|
      invariant ps == Flat(files[..i])
      invariant Chained(g, ps, src, prevStep) && fresh(g) && forall id <- g.steps :: fresh(g.steps[id])
      invariant fileEntryStepIDs == FileEntries(ps) && orderedStepIDs == IdsOf(ps)
    {
      var file := files[i];
      NoPlaces(file.path, file.hunks);
      for j := 0 to |file.hunks|
        invariant ps == Flat(files[..i]) + Places(file.path, file.hunks[..j])
        invariant Chained(g, ps, src, prevStep) && fresh(g) && forall id <- g.steps :: fresh(g.steps[id])
        invariant fileEntryStepIDs == FileEntries(ps) && orderedStepIDs == IdsOf(ps)
      {
        var p := Placed(file.path, file.hunks[j]);
        var step := AddHunk(g, prevStep, p, src, ps);
        orderedStepIDs := orderedStepIDs + [step.id];
        if file.path !in fileEntryStepIDs {
          fileEntryStepIDs := fileEntryStepIDs[file.path := step.id];
        }
        prevStep := Some(step);
        ChainEnds(g, ps + [p], src, step);
        ListsSnoc(ps, p);
        PlacesSnoc(file.path, file.hunks, j);
        ps := ps + [p];
      }
      FlatSnoc(files, i);
      assert file.hunks[..|file.hunks|] == file.hunks;
    }
    assert files[..|files|] == files;
    ChainMeans(g, ps, src, prevStep);
  }

  lemma NothingBuilt(files: seq<ReviewFile>, src: Sources)
    ensures Flat(files[..0]) == [] && FileEntries([]) == map[] && IdsOf([]) == []
  {
  }

  lemma EmptyChain(g: Graph, src: Sources)
    requires g.Valid() && g.steps == map[] && g.entryID == ""
    ensures Chained(g, [], src, None)
  {
  }

  lemma NoPlaces(path: string, hunks: seq<P.Hunk>)
    ensures Places(path, hunks[..0]) == []
  {
  }

  lemma ChainEnds(g: Graph, ps: seq<Placed>, src: Sources, step: Step)
    requires Chained(g, ps, src, Some(step))
    ensures ps != [] && step.id == IdOf(ps[|ps| - 1])
  {
  }

  lemma ChainMeans(g: Graph, ps: seq<Placed>, src: Sources, prev: Option<Step>)
    requires Chained(g, ps, src, prev)
    ensures g.Valid() && g.View() == GraphOf(ps, src) && g.entryID == EntryOf(ps)
  {
  }

  lemma ListsSnoc(ps: seq<Placed>, p: Placed)
    ensures IdsOf(ps + [p]) == IdsOf(ps) + [IdOf(p)]
    ensures FileEntries(ps + [p]) ==
      if p.path in FileEntries(ps) then FileEntries(ps) else FileEntries(ps)[p.path := IdOf(p)]
  {
    assert (ps + [p])[..|ps|] == ps;
  }

  // ------------------------------------------------------------------ the steps of ReviewReady

  /** The steps on the wire: the data of every listed ID that is in the graph. */
  function WireSteps(view: map<string, StepData>, ids: seq<string>): seq<StepData> {
    if ids == [] then []
    else WireSteps(view, ids[..|ids| - 1]) + if ids[|ids| - 1] in view then [view[ids[|ids| - 1]]] else []
  }

  method ProtoReviewSteps(g: Graph, orderedIDs: seq<string>) returns (out: seq<StepData>)
    ensures out == WireSteps(g.View(), orderedIDs)
  {
    out := [];
    assert orderedIDs[..0] == [];
    for i := 0 to |orderedIDs|
      invariant out == WireSteps(g.View(), orderedIDs[..i])
    {
      assert orderedIDs[..i + 1][..i] == orderedIDs[..i];
      var s := g.StepAt(orderedIDs[i]);
      if s.Some? {
        out := out + [s.value.Data()];
      }
    }
    assert orderedIDs[..|orderedIDs|] == orderedIDs;
  }
}
