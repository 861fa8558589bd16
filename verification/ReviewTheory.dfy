/** The review graph in use: Forward order, wire order and file and hunk order are the same, exactly
    when the hunks have distinct places; and each file is one stretch of that order. */
module ReviewTheory {
  import opened Outcomes
  import opened StepGraph
  import opened Decimals
  import opened Walking
  import WalkTheory
  import opened Cycles
  import CycleTheory
  import opened Building
  import opened BuildTheory
  import opened Orderers
  import opened OrderTheory
  import Text
  import P = Patches
  import R = ReviewGraph

  type Placed = R.Placed
  type Range = P.Range

  // ------------------------------------------------------------------ step IDs

  ghost predicate DistinctPlaces(ps: seq<Placed>) {
    forall i, j :: 0 <= i < j < |ps| ==>
      ps[i].path != ps[j].path || ps[i].hunk.newRange.start != ps[j].hunk.newRange.start
  }

  lemma NumberTail(front: string, n: int)
    ensures
      var s := front + ":" + Signed(n);
      var m := |s| - |Signed(n)| - 1;
      m >= 0 && s[m] == ':' && s[..m] == front && s[m + 1..] == Signed(n)
      && forall k :: m < k < |s| ==> s[k] != ':'
  {
    SignedChars(n);
    var s := front + ":" + Signed(n);
    var m := |front|;
    assert s[m + 1..] == Signed(n) && s[..m] == front;
    assert forall k :: m < k < |s| ==> s[k] == Signed(n)[k - m - 1] && s[k] in Signed(n);
  }

  /** Two hunks share a step ID only if they have the same file and the same start, even when the
      paths hold colons and digits. */
  lemma IdInjective(path: string, start: int, path': string, start': int)
    requires R.StepId(path, start) == R.StepId(path', start')
    ensures path == path' && start == start'
  {
    NumberTail("hunk:" + path, start);
    NumberTail("hunk:" + path', start');
    SignedInjective(start, start');
    assert ("hunk:" + path)[5..] == path && ("hunk:" + path')[5..] == path';
  }

  lemma IdsDistinctIff(ps: seq<Placed>)
    ensures Distinct(R.IdsOf(ps)) <==> DistinctPlaces(ps)
  {
    forall i, j | 0 <= i < j < |ps|
      ensures R.IdsOf(ps)[i] == R.IdsOf(ps)[j] <==>
        ps[i].path == ps[j].path && ps[i].hunk.newRange.start == ps[j].hunk.newRange.start
    {
      if R.IdsOf(ps)[i] == R.IdsOf(ps)[j] {
        IdInjective(ps[i].path, ps[i].hunk.newRange.start, ps[j].path, ps[j].hunk.newRange.start);
      }
    }
  }

  // ------------------------------------------------------------------ what is stored

  lemma IdsOfSteps(ps: seq<Placed>, src: R.Sources)
    ensures Ids(R.HunkSteps(ps, src)) == R.IdsOf(ps)
  {
    hide R.SpanOf;
  }

  /** The last place of id in ids, or the length. */
  function LastAt(ids: seq<string>, id: string): (k: nat)
    ensures k <= |ids| && (k < |ids| ==> ids[k] == id) && forall j :: k < j < |ids| ==> ids[j] != id
    ensures id in ids ==> k < |ids|
  {
    if ids == [] then 0
    else if ids[|ids| - 1] == id then |ids| - 1
    else
      var k := LastAt(ids[..|ids| - 1], id);
      if k == |ids| - 1 then |ids| else k
  }

  lemma {:induction false} StoredIsLast(steps: seq<StepData>, id: string)
    requires id in Ids(steps)
    ensures id in Stored(map[], steps) && Stored(map[], steps)[id] == steps[LastAt(Ids(steps), id)]
  {
    var n := |steps| - 1;
    assert Ids(steps)[..n] == Ids(steps[..n]);
    if steps[n].id != id {
      var k :| 0 <= k < |steps| && Ids(steps)[k] == id;
      assert Ids(steps[..n])[k] == id;
      StoredIsLast(steps[..n], id);
    }
  }

  /** The out-edges of the step of hunk k: those of the last hunk with its ID. */
  lemma AdjacencyAt(ps: seq<Placed>, src: R.Sources, k: nat)
    requires k < |ps|
    ensures
      var adj := EdgesOf(R.GraphOf(ps, src));
      var ids := R.IdsOf(ps);
      ids[k] in adj && adj[ids[k]] == R.LinkAt(ps, LastAt(ids, ids[k]))
  {
    hide R.SpanOf, R.LinkAt, R.IdOf;
    IdsOfSteps(ps, src);
    StoredIsLast(R.HunkSteps(ps, src), R.IdsOf(ps)[k]);
  }

  /** The graph has one step for each hunk if and only if their places are distinct. */
  lemma GraphSize(ps: seq<Placed>, src: R.Sources)
    ensures |R.GraphOf(ps, src)| == |ps| <==> DistinctPlaces(ps)
  {
    hide DistinctPlaces;
    IdsOfSteps(ps, src);
    IdsDistinctIff(ps);
    CountIffDistinct(R.HunkSteps(ps, src));
  }

  /** ReviewReady lists the hunks in the order in which they were chained. */
  lemma {:induction false} WireIds(view: map<string, StepData>, ids: seq<string>)
    requires forall id <- ids :: id in view && view[id].id == id
    ensures Ids(R.WireSteps(view, ids)) == ids
    ensures |R.WireSteps(view, ids)| == |ids|
    ensures forall k :: 0 <= k < |ids| ==> R.WireSteps(view, ids)[k] == view[ids[k]]
  {
    if ids == [] {
    } else {
      WireIds(view, ids[..|ids| - 1]);
      IdsConcat(R.WireSteps(view, ids[..|ids| - 1]), [view[ids[|ids| - 1]]]);
      assert ids == ids[..|ids| - 1] + [ids[|ids| - 1]];
    }
  }

  lemma WireOrder(ps: seq<Placed>, src: R.Sources)
    ensures Ids(R.WireSteps(R.GraphOf(ps, src), R.IdsOf(ps))) == R.IdsOf(ps)
    ensures R.WireSteps(R.GraphOf(ps, src), R.IdsOf(ps)) == R.HunkSteps(ps, src) <==> DistinctPlaces(ps)
  {
    hide R.GraphOf, R.IdOf, R.HunkSteps, R.WireSteps, DistinctPlaces, Ids, R.IdsOf, R.LinkAt;
    IdsDistinctIff(ps);
    WireStored(ps, src);
    if Distinct(R.IdsOf(ps)) {
      DistinctStored(ps, src);
    } else {
      var i, j :| 0 <= i < j < |ps| && R.IdsOf(ps)[i] == R.IdsOf(ps)[j];
      var k := WireDiffers(ps, src, i, j);
      assert R.HunkSteps(ps, src)[k].edges == R.LinkAt(ps, k);
      assert R.WireSteps(R.GraphOf(ps, src), R.IdsOf(ps))[k] == R.GraphOf(ps, src)[R.IdsOf(ps)[k]];
    }
  }

  lemma WireStored(ps: seq<Placed>, src: R.Sources)
    ensures
      var view, ids := R.GraphOf(ps, src), R.IdsOf(ps);
      && Ids(R.WireSteps(view, ids)) == ids && |R.WireSteps(view, ids)| == |ids|
      && forall k :: 0 <= k < |ids| ==> ids[k] in view && R.WireSteps(view, ids)[k] == view[ids[k]]
  {
    hide R.SpanOf, R.LinkAt, R.IdOf;
    var ids, steps := R.IdsOf(ps), R.HunkSteps(ps, src);
    IdsOfSteps(ps, src);
    forall id | id in ids
      ensures id in R.GraphOf(ps, src) && R.GraphOf(ps, src)[id].id == id
    {
      StoredIsLast(steps, id);
    }
    WireIds(R.GraphOf(ps, src), ids);
  }

  lemma DistinctStored(ps: seq<Placed>, src: R.Sources)
    requires Distinct(R.IdsOf(ps))
    ensures R.WireSteps(R.GraphOf(ps, src), R.IdsOf(ps)) == R.HunkSteps(ps, src)
  {
    hide R.SpanOf, R.LinkAt, R.IdOf;
    WireStored(ps, src);
    IdsOfSteps(ps, src);
    StoredDistinct(R.HunkSteps(ps, src));
  }

  /** A hunk whose ID comes again later has, in the graph, the link of the later one: following
      both, some hunk of the list is found with a link that is not its own. */
  lemma {:induction false} WireDiffers(ps: seq<Placed>, src: R.Sources, i: nat, j: nat) returns (k: nat)
    requires i < j < |ps| && R.IdsOf(ps)[i] == R.IdsOf(ps)[j]
    ensures k < |ps| && R.IdsOf(ps)[k] in R.GraphOf(ps, src)
    ensures R.GraphOf(ps, src)[R.IdsOf(ps)[k]].edges != R.LinkAt(ps, k)
    decreases |ps| - i
  {
    hide R.GraphOf, R.IdOf;
    var ids := R.IdsOf(ps);
    AdjacencyAt(ps, src, i);
    var last := LastAt(ids, ids[i]);
    assert last >= j;
    if R.LinkAt(ps, last) == R.LinkAt(ps, i) {
      assert R.LinkAt(ps, i)[0].targetStepId == ids[i + 1];
      assert last + 1 < |ps| && R.LinkAt(ps, last)[0].targetStepId == ids[last + 1];
      k := WireDiffers(ps, src, i + 1, last + 1);
    } else {
      k := i;
    }
  }

  // ------------------------------------------------------------------ what a step on the wire shows

  /** x is n in a 32-bit field. */
  ghost predicate Field32(x: nat, n: int) {
    x < 0x1_0000_0000 && (0 <= n < 0x1_0000_0000 ==> x == n) && exists q :: n == x + q * 0x1_0000_0000
  }

  ghost predicate SpanShows(span: HunkSpan, path: string, hunk: P.Hunk, omitRaw: bool) {
    && span.filePath == path
    && Field32(span.oldStart, hunk.oldRange.start) && Field32(span.oldLines, hunk.oldRange.count)
    && Field32(span.newStart, hunk.newRange.start) && Field32(span.newLines, hunk.newRange.count)
    && (omitRaw ==> span.rawDiff == "") && (!omitRaw ==> span.rawDiff == hunk.rawDiff)
  }

  /** The step is that of the hunk: its ID and label name the file and the start, its span has the
      hunk's own ranges and raw text. */
  ghost predicate StepShows(s: StepData, p: Placed, src: R.Sources) {
    && s.id == "hunk:" + p.path + ":" + Signed(p.hunk.newRange.start)
    && s.labelText == p.path + ":" + Signed(p.hunk.newRange.start)
    && s.kind == HunkStep && s.source.None? && !s.visited
    && s.hunkSpan.Some? && SpanShows(s.hunkSpan.value, p.path, p.hunk, src.omitRaw)
  }

  lemma Field32Is(n: int)
    ensures Field32(ToUint32(n), n)
  {
    Uint32Keeps(n);
  }

  lemma UnlinkedShows(p: Placed, src: R.Sources)
    ensures StepShows(R.Unlinked(p, src), p, src)
  {
    hide Field32, R.ExtractContextLines, Signed, ToUint32;
    Field32Is(p.hunk.oldRange.start);
    Field32Is(p.hunk.oldRange.count);
    Field32Is(p.hunk.newRange.start);
    Field32Is(p.hunk.newRange.count);
  }

  /** The step of hunk k, in the graph and on the wire, when the places are distinct. */
  lemma HunkOnWire(ps: seq<Placed>, src: R.Sources, k: nat)
    requires DistinctPlaces(ps) && k < |ps|
    ensures
      var view, ids := R.GraphOf(ps, src), R.IdsOf(ps);
      && |R.WireSteps(view, ids)| == |ps| && ids[k] in view && R.WireSteps(view, ids)[k] == view[ids[k]]
      && StepShows(view[ids[k]], ps[k], src)
      && view[ids[k]].edges == if k + 1 < |ps| then [NextEdge(ids[k + 1])] else []
  {
    hide R.Unlinked, R.GraphOf, R.IdOf, DistinctPlaces, R.WireSteps, StepShows;
    WireOrder(ps, src);
    WireStored(ps, src);
    UnlinkedShows(ps[k], src);
    ShowsLinked(R.Unlinked(ps[k], src), ps[k], src, R.LinkAt(ps, k));
  }

  lemma ShowsLinked(s: StepData, p: Placed, src: R.Sources, edges: seq<StepEdge>)
    requires StepShows(s, p, src)
    ensures StepShows(s.(edges := edges), p, src)
  {
  }

  /** The IDs that the program's own test of the step order expects. */
  lemma StepIdExample()
    ensures R.StepId("aaa/file_a.go", 10) == "hunk:aaa/file_a.go:10"
    ensures R.StepId("bbb/file_b.go", 100) == "hunk:bbb/file_b.go:100"
  {
    assert Decimal(1) == "1";
    assert Decimal(10) == Decimal(1) + "0";
    assert Decimal(100) == Decimal(10) + "0";
    assert Signed(10) == "10" && Signed(100) == "100";
  }

  // ------------------------------------------------------------------ walking forward

  function Forwards(k: nat): seq<Command> {
    seq(k, _ => GoForward)
  }

  /** Each listed step leads to the next one and the last one to none. */
  ghost predicate NextChain(adj: Adjacency, ids: seq<string>) {
    forall k :: 0 <= k < |ids| ==> ids[k] in adj && adj[ids[k]] == LinkAfter(ids, k)
  }

  function LinkAfter(ids: seq<string>, k: nat): seq<StepEdge> {
    if k + 1 < |ids| then [NextEdge(ids[k + 1])] else []
  }

  lemma HunksChained(ps: seq<Placed>, src: R.Sources)
    requires Distinct(R.IdsOf(ps))
    ensures NextChain(EdgesOf(R.GraphOf(ps, src)), R.IdsOf(ps))
  {
    hide R.GraphOf, R.IdOf, R.LinkAt, LinkAfter;
    var adj, ids := EdgesOf(R.GraphOf(ps, src)), R.IdsOf(ps);
    forall k | 0 <= k < |ids|
      ensures ids[k] in adj && adj[ids[k]] == LinkAfter(ids, k)
    {
      AdjacencyAt(ps, src, k);
      OwnLink(ps, k);
    }
  }

  lemma OwnLink(ps: seq<Placed>, k: nat)
    requires Distinct(R.IdsOf(ps)) && k < |ps|
    ensures LastAt(R.IdsOf(ps), R.IdsOf(ps)[k]) == k && R.LinkAt(ps, k) == LinkAfter(R.IdsOf(ps), k)
  {
    hide R.IdOf;
  }

  /** One Forward over a step whose only edge is a NEXT edge, or over one without edges. */
  lemma ForwardOnce(adj: Adjacency, ws: WalkState, target: string)
    requires ws.current in adj
    ensures adj[ws.current] == [NextEdge(target)] && target in adj ==>
      Forward(adj, ws) == Move(WalkState(target, ws.breadcrumb + [ws.current], ws.visited + {target}), Ok(target))
    ensures adj[ws.current] == [] ==> Forward(adj, ws) == Move(ws, Err(NoSuchEdge))
  {
  }

  lemma ForwardsSnoc(adj: Adjacency, ws: WalkState, k: nat)
    ensures Run(adj, ws, Forwards(k + 1)) == Forward(adj, Run(adj, ws, Forwards(k))).state
  {
    hide Forward;
    assert Forwards(k + 1) == Forwards(k) + [GoForward];
    WalkTheory.RunConcat(adj, ws, Forwards(k), [GoForward]);
    assert [GoForward][1..] == [];
  }

  /** From step o of a chain, m Forwards go through the m steps after it. */
  lemma {:induction false} WalkAlong(adj: Adjacency, ids: seq<string>, ws: WalkState, o: nat, m: nat)
    requires NextChain(adj, ids) && o + m < |ids| && ws.current == ids[o]
    ensures WalkedTo(ids, ws, o, m, Run(adj, ws, Forwards(m)))
  {
    hide Run, Forward, Forwards, NextChain;
    if m == 0 {
      RunNothing(adj, ws);
    } else {
      hide WalkedTo;
      WalkAlong(adj, ids, ws, o, m - 1);
      ForwardsSnoc(adj, ws, m - 1);
      WalkStep(adj, ids, ws, o, m, Run(adj, ws, Forwards(m - 1)));
    }
  }

  /** r is the walk from step o after m steps of the chain. */
  ghost predicate WalkedTo(ids: seq<string>, ws: WalkState, o: nat, m: nat, r: WalkState) {
    o + m < |ids| && r.Trail() == ws.Trail() + ids[o + 1..o + m + 1] && r.current == ids[o + m]
  }

  lemma WalkStep(adj: Adjacency, ids: seq<string>, ws: WalkState, o: nat, m: nat, r: WalkState)
    requires NextChain(adj, ids) && m > 0 && o + m < |ids| && WalkedTo(ids, ws, o, m - 1, r)
    ensures WalkedTo(ids, ws, o, m, Forward(adj, r).state)
  {
    hide Forward, NextChain;
    ChainLink(adj, ids, o + m - 1);
    ForwardOnce(adj, r, ids[o + m]);
    assert ids[o + 1..o + m + 1] == ids[o + 1..o + m] + [ids[o + m]];
    assert Forward(adj, r).state.Trail() == r.Trail() + [ids[o + m]];
  }

  lemma RunNothing(adj: Adjacency, ws: WalkState)
    ensures Run(adj, ws, Forwards(0)) == ws
  {
  }

  lemma ChainLink(adj: Adjacency, ids: seq<string>, k: nat)
    requires NextChain(adj, ids) && k + 1 < |ids|
    ensures ids[k] in adj && adj[ids[k]] == [NextEdge(ids[k + 1])] && ids[k + 1] in adj
  {
  }

  /** Forward from the last step of a chain fails and changes nothing. */
  lemma ForwardAtEnd(adj: Adjacency, ids: seq<string>, ws: WalkState)
    requires NextChain(adj, ids) && ids != [] && ws.current == ids[|ids| - 1]
    ensures Forward(adj, ws) == Move(ws, Err(NoSuchEdge))
  {
    assert LinkAfter(ids, |ids| - 1) == [];
    ForwardOnce(adj, ws, "");
  }

  /** k Forwards from the first ID lead through the first k + 1 IDs, for every k. */
  ghost predicate VisitsInOrder(adj: Adjacency, ids: seq<string>, visited: set<string>)
    requires ids != []
  {
    forall k: nat :: k < |ids| ==> Run(adj, Start(ids[0], visited), Forwards(k)).Trail() == ids[..k + 1]
  }

  /** Forward order is hunk order if and only if the hunks have distinct places. */
  lemma ForwardOrder(ps: seq<Placed>, src: R.Sources, visited: set<string>)
    requires ps != []
    ensures VisitsInOrder(EdgesOf(R.GraphOf(ps, src)), R.IdsOf(ps), visited) <==> DistinctPlaces(ps)
    ensures DistinctPlaces(ps) ==>
      var adj := EdgesOf(R.GraphOf(ps, src));
      var last := Run(adj, Start(R.EntryOf(ps), visited), Forwards(|ps| - 1));
      Forward(adj, last) == Move(last, Err(NoSuchEdge))
  {
    hide R.GraphOf, R.IdOf, DistinctPlaces, Forward, Run;
    var adj, ids := EdgesOf(R.GraphOf(ps, src)), R.IdsOf(ps);
    IdsDistinctIff(ps);
    if Distinct(ids) {
      HunksChained(ps, src);
      forall k: nat | k < |ids|
        ensures Run(adj, Start(ids[0], visited), Forwards(k)).Trail() == ids[..k + 1]
      {
        WalkAlong(adj, ids, Start(ids[0], visited), 0, k);
        assert [ids[0]] + ids[1..k + 1] == ids[..k + 1];
      }
      WalkAlong(adj, ids, Start(ids[0], visited), 0, |ids| - 1);
      ForwardAtEnd(adj, ids, Run(adj, Start(ids[0], visited), Forwards(|ps| - 1)));
    }
    if VisitsInOrder(adj, ids, visited) {
      forall i, j | 0 <= i < j < |ids|
        ensures ids[i] != ids[j]
      {
        NoLaterCopy(ps, src, visited, i);
      }
    }
  }

  /** If the whole list can be walked, no ID comes back: a copy would be walked on from the last
      place of its ID, and the walk would end too early. */
  lemma {:induction false} NoLaterCopy(ps: seq<Placed>, src: R.Sources, visited: set<string>, k: nat)
    requires k < |ps|
    requires VisitsInOrder(EdgesOf(R.GraphOf(ps, src)), R.IdsOf(ps), visited)
    ensures LastAt(R.IdsOf(ps), R.IdsOf(ps)[k]) == k
    decreases |ps| - k
  {
    hide R.GraphOf, R.IdOf, Forward, Run, Forwards;
    var adj, ids := EdgesOf(R.GraphOf(ps, src)), R.IdsOf(ps);
    var last := LastAt(ids, ids[k]);
    assert last >= k;
    if k + 1 < |ps| {
      NoLaterCopy(ps, src, visited, k + 1);
      WalkedOn(ps, src, visited, k);
      assert ids[k + 1] == ids[last + 1];
    }
  }

  lemma WalkedOn(ps: seq<Placed>, src: R.Sources, visited: set<string>, k: nat)
    requires k + 1 < |ps|
    requires VisitsInOrder(EdgesOf(R.GraphOf(ps, src)), R.IdsOf(ps), visited)
    ensures
      var ids := R.IdsOf(ps);
      var last := LastAt(ids, ids[k]);
      last + 1 < |ids| && ids[last + 1] == ids[k + 1]
  {
    hide R.GraphOf, R.IdOf, Run, Forwards, Forward;
    var adj, ids := EdgesOf(R.GraphOf(ps, src)), R.IdsOf(ps);
    var ws, next := Run(adj, Start(ids[0], visited), Forwards(k)), Run(adj, Start(ids[0], visited), Forwards(k + 1));
    assert ws.Trail() == ids[..k + 1] && next.Trail() == ids[..k + 2];
    assert ws.current == ws.Trail()[k] == ids[k] && next.current == next.Trail()[k + 1] == ids[k + 1];
    ForwardsSnoc(adj, Start(ids[0], visited), k);
    AdjacencyAt(ps, src, k);
    var last := LastAt(ids, ids[k]);
    if last + 1 < |ids| {
      AdjacencyAt(ps, src, last + 1);
      ForwardOnce(adj, ws, ids[last + 1]);
    } else {
      ForwardOnce(adj, ws, "");
    }
  }

  /** The detector reports nothing on a review graph of hunks with distinct places. */
  lemma ReviewGraphAccepted(ps: seq<Placed>, src: R.Sources, roots: seq<string>)
    requires DistinctPlaces(ps) && Enumerates(roots, EdgesOf(R.GraphOf(ps, src)))
    ensures Detect(EdgesOf(R.GraphOf(ps, src)), roots) == []
  {
    hide R.SpanOf, DistinctPlaces, Detect, R.IdOf;
    var steps := R.HunkSteps(ps, src);
    IdsDistinctIff(ps);
    IdsOfSteps(ps, src);
    forall i: nat | i < |steps|
      ensures LeadsOn(steps, i)
    {
      if i + 1 < |ps| {
        assert Ids(steps[i + 1..])[0] == R.IdsOf(ps)[i + 1];
      }
    }
    LeadsOnAcyclic(steps);
    CycleTheory.DetectCorrect(EdgesOf(R.GraphOf(ps, src)), roots);
  }

  // ------------------------------------------------------------------ context lines

  function Clamp(x: int, n: nat): nat {
    if x < 0 then 0 else if x > n then n else x
  }

  lemma NoWrap(x: int)
    requires InInt64(x)
    ensures R.Wrap64(x) == x
  {
  }

  lemma ExtractIsJoin(lines: seq<string>, from: int, to: int)
    requires from <= to && InInt64(from) && InInt64(to)
    ensures R.ExtractContextLines(lines, R.Wrap64(from), R.Wrap64(to)) == Text.Join(lines[Clamp(from, |lines|)..Clamp(to, |lines|)])
  {
    NoWrap(from);
    NoWrap(to);
  }

  lemma SpanContexts(p: Placed, src: R.Sources)
    ensures
      var lines, start, count, span := src.LinesOf(p.path), p.hunk.newRange.start, p.hunk.newRange.count, R.SpanOf(p, src);
      lines != [] ==>
        span.contextBefore == R.ExtractContextLines(lines, R.Wrap64(start - 6), R.Wrap64(start - 1)) &&
        span.contextAfter == R.ExtractContextLines(lines, R.Wrap64(start + count - 1), R.Wrap64(start + count + 4))
    ensures src.LinesOf(p.path) == [] ==> R.SpanOf(p, src).contextBefore == "" == R.SpanOf(p, src).contextAfter
  {
    hide R.ExtractContextLines, R.Wrap64;
  }

  /** The arithmetic of the contexts stays inside 64 bits. */
  predicate NoOverflow(r: Range) {
    InInt64(r.start - 6) && InInt64(r.start + r.count - 1) && InInt64(r.start + r.count + 4)
  }

  /** The context of a hunk is what stands right before and right after its lines, at most five lines
      on either side, fewer only at the ends of the file. The hunk may begin before the first line
      or lie past the last; its lines are then those that the file has. */
  lemma ContextSurrounds(p: Placed, src: R.Sources) returns (before: seq<string>, after: seq<string>)
    requires p.hunk.newRange.count >= 0 && NoOverflow(p.hunk.newRange)
    ensures
      var lines, start, end := src.LinesOf(p.path), p.hunk.newRange.start - 1, p.hunk.newRange.start - 1 + p.hunk.newRange.count;
      var from, first, last, to :=
        Clamp(start - 5, |lines|), Clamp(start, |lines|), Clamp(end, |lines|), Clamp(end + 5, |lines|);
      var span := R.SpanOf(p, src);
      && lines == (if p.path in src.fileLines then src.fileLines[p.path] else [])
      && span.contextBefore == Text.Join(before) && span.contextAfter == Text.Join(after)
      && first <= last && from <= to && lines[from..to] == before + lines[first..last] + after
      && |before| <= 5 && |after| <= 5
      && (|before| < 5 ==> from == 0 || first == |lines|) && (|after| < 5 ==> to == |lines| || last == 0)
  {
    hide R.ExtractContextLines, R.Wrap64, R.SpanOf;
    var lines, start := src.LinesOf(p.path), p.hunk.newRange.start - 1;
    var end := start + p.hunk.newRange.count;
    SpanContexts(p, src);
    var from, first, last, to :=
      Clamp(start - 5, |lines|), Clamp(start, |lines|), Clamp(end, |lines|), Clamp(end + 5, |lines|);
    before, after := lines[from..first], lines[last..to];
    if lines != [] {
      ExtractIsJoin(lines, start - 5, start);
      ExtractIsJoin(lines, end, end + 5);
    }
    Cut(lines, from, first, last, to);
  }

  lemma Cut(lines: seq<string>, from: nat, first: nat, last: nat, to: nat)
    requires from <= first <= last <= to <= |lines|
    ensures lines[from..to] == lines[from..first] + lines[first..last] + lines[last..to]
  {
  }

  // ------------------------------------------------------------------ files

  /** Where the hunks of file i begin. */
  function Offset(files: seq<ReviewFile>, i: nat): nat
    requires i <= |files|
  {
    |R.Flat(files[..i])|
  }

  lemma {:induction false} FlatAt(files: seq<ReviewFile>, i: nat)
    requires i < |files|
    ensures Offset(files, i) + |files[i].hunks| <= |R.Flat(files)|
    ensures
      R.Flat(files)[Offset(files, i)..Offset(files, i) + |files[i].hunks|] == R.Places(files[i].path, files[i].hunks)
    ensures R.Flat(files)[..Offset(files, i)] == R.Flat(files[..i])
    ensures Offset(files, i + 1) == Offset(files, i) + |files[i].hunks|
  {
    var n := |files| - 1;
    R.FlatSnoc(files, i);
    if i == n {
      assert files[..n + 1] == files;
    } else {
      FlatAt(files[..n], i);
      assert files[..n][..i] == files[..i];
      var all, o := R.Flat(files), Offset(files, i);
      assert all == R.Flat(files[..n]) + R.Places(files[n].path, files[n].hunks);
      assert all[o..o + |files[i].hunks|] == R.Flat(files[..n])[o..o + |files[i].hunks|];
      assert all[..o] == R.Flat(files[..n])[..o];
    }
  }

  lemma {:induction false} FlatPaths(files: seq<ReviewFile>)
    ensures forall p <- R.Flat(files) :: exists f <- files :: f.path == p.path
  {
    if files == [] {
    } else {
      FlatPaths(files[..|files| - 1]);
      var last := files[|files| - 1];
      forall p | p in R.Flat(files)
        ensures exists f <- files :: f.path == p.path
      {
        if p in R.Flat(files[..|files| - 1]) {
          var f :| f in files[..|files| - 1] && f.path == p.path;
          assert f in files;
        } else {
          assert last in files;
        }
      }
    }
  }

  lemma {:induction false} EntriesKept(ps: seq<Placed>, k: nat)
    requires k <= |ps|
    ensures forall path <- R.FileEntries(ps[..k]) ::
      path in R.FileEntries(ps) && R.FileEntries(ps)[path] == R.FileEntries(ps[..k])[path]
    decreases |ps| - k
  {
    if k < |ps| {
      EntriesKept(ps, k + 1);
      assert ps[..k + 1][..k] == ps[..k];
    } else {
      assert ps[..k] == ps;
    }
  }

  lemma {:induction false} EntryPaths(ps: seq<Placed>)
    ensures forall path :: path in R.FileEntries(ps) <==> exists p <- ps :: p.path == path
  {
    hide R.IdOf;
    if ps == [] {
    } else {
      var front, last := ps[..|ps| - 1], ps[|ps| - 1];
      EntryPaths(front);
      assert ps == front + [last];
    }
  }

  /** The entry step of a file is its first hunk; a file without hunks has none. */
  lemma FileEntryIsFirst(files: seq<ReviewFile>, i: nat)
    requires DistinctPaths(files) && i < |files|
    ensures
      var entries := R.FileEntries(R.Flat(files));
      && (files[i].path in entries <==> files[i].hunks != [])
      && (files[i].hunks != [] ==> Offset(files, i) < |R.Flat(files)|)
      && (files[i].hunks != [] ==> entries[files[i].path] == R.IdsOf(R.Flat(files))[Offset(files, i)])
  {
    hide R.IdOf, R.FileEntries, R.Flat;
    var ps, o := R.Flat(files), Offset(files, i);
    var path := files[i].path;
    FlatAt(files, i);
    if files[i].hunks == [] {
      NoHunksNoEntry(files, i);
    } else {
      assert R.Places(path, files[i].hunks)[0] == ps[o];
      NotBefore(files, i);
      EntryPaths(R.Flat(files[..i]));
      assert ps[..o + 1] == ps[..o] + [ps[o]];
      R.ListsSnoc(ps[..o], ps[o]);
      EntriesKept(ps, o + 1);
    }
  }

  lemma NotBefore(files: seq<ReviewFile>, i: nat)
    requires DistinctPaths(files) && i < |files|
    ensures !exists p <- R.Flat(files[..i]) :: p.path == files[i].path
  {
    FlatPaths(files[..i]);
  }

  lemma {:induction false} NoHunksNoEntry(files: seq<ReviewFile>, i: nat)
    requires DistinctPaths(files) && i < |files| && files[i].hunks == []
    ensures files[i].path !in R.FileEntries(R.Flat(files))
  {
    NoHunksNoPlace(files, i);
    EntryPaths(R.Flat(files));
  }

  lemma {:induction false} NoHunksNoPlace(files: seq<ReviewFile>, i: nat)
    requires DistinctPaths(files) && i < |files| && files[i].hunks == []
    ensures !exists p <- R.Flat(files) :: p.path == files[i].path
  {
    var n := |files| - 1;
    if i == n {
      NotBefore(files, n);
    } else {
      NoHunksNoPlace(files[..n], i);
      assert files[i].path != files[n].path;
    }
  }

  /** The first file from place i on that has hunks. */
  function NextFile(files: seq<ReviewFile>, i: nat): (r: Option<nat>)
    requires i <= |files|
    ensures match r
      case Some(j) => i <= j < |files| && files[j].hunks != [] && forall k :: i <= k < j ==> files[k].hunks == []
      case None => forall k :: i <= k < |files| ==> files[k].hunks == []
    decreases |files| - i
  {
    if i == |files| then None
    else if files[i].hunks != [] then Some(i)
    else NextFile(files, i + 1)
  }

  /** That file begins where the files before place i end; without one, nothing follows them. */
  lemma {:induction false} NextFileOffset(files: seq<ReviewFile>, i: nat)
    requires i <= |files|
    ensures match NextFile(files, i)
      case Some(j) => Offset(files, j) == Offset(files, i) < |R.Flat(files)|
      case None => Offset(files, i) == |R.Flat(files)|
    decreases |files| - i
  {
    if i == |files| {
      assert files[..i] == files;
    } else {
      FlatAt(files, i);
      if files[i].hunks == [] {
        NextFileOffset(files, i + 1);
      }
    }
  }

  /** From a file's entry step, Forward goes through that file's hunks and then to the entry step
      of the next file that has any; it fails, changing nothing, when there is none. */
  lemma FileWalk(files: seq<ReviewFile>, src: R.Sources, i: nat, visited: set<string>)
    requires DistinctPaths(files) && DistinctPlaces(R.Flat(files))
    requires i < |files| && files[i].hunks != []
    ensures
      var ps := R.Flat(files);
      var adj, entries := EdgesOf(R.GraphOf(ps, src)), R.FileEntries(ps);
      && files[i].path in entries
      && var last := Run(adj, Start(entries[files[i].path], visited), Forwards(|files[i].hunks| - 1));
         && last.Trail() == R.IdsOf(R.Places(files[i].path, files[i].hunks))
         && GoesToNextFile(files, i, last, Forward(adj, last))
  {
    hide *;
    var ps := R.Flat(files);
    var adj, ids, o, m := EdgesOf(R.GraphOf(ps, src)), R.IdsOf(ps), Offset(files, i), |files[i].hunks|;
    IdsDistinctIff(ps);
    HunksChained(ps, src);
    FileEntryIsFirst(files, i);
    FlatAt(files, i);
    StretchWalk(adj, ids, o, m, visited);
    IdsOfStretch(ps, o, m);
    NextFileOffset(files, i + 1);
    var last := Run(adj, Start(ids[o], visited), Forwards(m - 1));
    match NextFile(files, i + 1)
    case None =>
      ForwardAtEnd(adj, ids, last);
      NoNextFile(files, i, last, Forward(adj, last));
    case Some(j) =>
      FileEntryIsFirst(files, j);
      ChainLink(adj, ids, o + m - 1);
      ForwardOnce(adj, last, ids[o + m]);
      NextFileReached(files, i, j, last, Forward(adj, last));
  }

  /** The move made after the hunks of file i. */
  ghost predicate GoesToNextFile(files: seq<ReviewFile>, i: nat, last: WalkState, move: Move)
    requires i < |files|
  {
    var entries := R.FileEntries(R.Flat(files));
    match NextFile(files, i + 1)
    case Some(j) => files[j].path in entries && move.outcome == Ok(entries[files[j].path])
    case None => move == Move(last, Err(NoSuchEdge))
  }

  lemma NextFileReached(files: seq<ReviewFile>, i: nat, j: nat, last: WalkState, move: Move)
    requires i < |files| && NextFile(files, i + 1) == Some(j)
    requires files[j].path in R.FileEntries(R.Flat(files))
    requires move.outcome == Ok(R.FileEntries(R.Flat(files))[files[j].path])
    ensures GoesToNextFile(files, i, last, move)
  {
  }

  lemma NoNextFile(files: seq<ReviewFile>, i: nat, last: WalkState, move: Move)
    requires i < |files| && NextFile(files, i + 1) == None && move == Move(last, Err(NoSuchEdge))
    ensures GoesToNextFile(files, i, last, move)
  {
  }

  lemma StretchWalk(adj: Adjacency, ids: seq<string>, o: nat, m: nat, visited: set<string>)
    requires NextChain(adj, ids) && 0 < m && o + m <= |ids|
    ensures
      var last := Run(adj, Start(ids[o], visited), Forwards(m - 1));
      last.Trail() == ids[o..o + m] && last.current == ids[o + m - 1]
  {
    hide Run, Forwards, NextChain;
    WalkAlong(adj, ids, Start(ids[o], visited), o, m - 1);
    assert [ids[o]] + ids[o + 1..o + m] == ids[o..o + m];
  }

  lemma IdsOfStretch(ps: seq<Placed>, o: nat, m: nat)
    requires o + m <= |ps|
    ensures R.IdsOf(ps)[o..o + m] == R.IdsOf(ps[o..o + m])
  {
    hide R.IdOf;
  }

  // ------------------------------------------------------------------ the whole pipeline

  /** The hunks of a file in a diff go down the file. */
  ghost predicate Ascending(f: ReviewFile) {
    forall a, b :: 0 <= a < b < |f.hunks| ==> f.hunks[a].newRange.start < f.hunks[b].newRange.start
  }

  ghost predicate AllAscending(files: seq<ReviewFile>) {
    forall f <- files :: Ascending(f)
  }

  lemma {:induction false} AscendingPlaces(files: seq<ReviewFile>)
    requires DistinctPaths(files) && AllAscending(files)
    ensures DistinctPlaces(R.Flat(files))
  {
    if files == [] {
    } else {
      var n := |files| - 1;
      var front: seq<Placed>, last: seq<Placed> := R.Flat(files[..n]), R.Places(files[n].path, files[n].hunks);
      var all: seq<Placed> := front + last;
      AscendingPlaces(files[..n]);
      NotBefore(files, n);
      assert Ascending(files[n]);
      forall i, j | 0 <= i < j < |all|
        ensures all[i].path != all[j].path || all[i].hunk.newRange.start != all[j].hunk.newRange.start
      {
        if i < |front| <= j {
          assert front[i] in front;
        }
      }
    }
  }

  lemma SortKeepsFiles(o: Orderer, files: seq<ReviewFile>)
    ensures DistinctPaths(files) ==> DistinctPaths(Sort(o, files))
    ensures AllAscending(files) ==> AllAscending(Sort(o, files))
  {
    hide Sort, Sorted, KeyOf, Ascending;
    var s := Sort(o, files);
    SortIsSorted(o, files);
    forall f | f in s
      ensures f in files
    {
      assert f in multiset(s);
      assert f in multiset(files);
    }
    if DistinctPaths(files) {
      forall i, j | 0 <= i < j < |s|
        ensures s[i].path != s[j].path
      {
        SamePathTwice(files, s, i, j);
      }
    }
  }

  lemma SamePathTwice(files: seq<ReviewFile>, s: seq<ReviewFile>, i: nat, j: nat)
    requires DistinctPaths(files) && multiset(s) == multiset(files) && i < j < |s|
    ensures s[i].path != s[j].path
  {
    assert s[i] in multiset(s) && s[j] in multiset(s);
    if s[i] == s[j] {
      TwiceCounts(s, i, j);
      DistinctCountsOnce(files, s[i]);
    } else {
      var a :| 0 <= a < |files| && files[a] == s[i];
      var b :| 0 <= b < |files| && files[b] == s[j];
      assert a < b || b < a;
    }
  }

  lemma TwiceCounts(s: seq<ReviewFile>, i: nat, j: nat)
    requires i < j < |s| && s[i] == s[j]
    ensures multiset(s)[s[i]] >= 2
  {
    assert s == s[..j] + s[j..];
    assert s[i] == s[..j][i] && s[i] in multiset(s[..j]);
    assert s[j] == s[j..][0] && s[j] in multiset(s[j..]);
  }

  lemma {:induction false} DistinctCountsOnce(s: seq<ReviewFile>, f: ReviewFile)
    requires DistinctPaths(s)
    ensures multiset(s)[f] <= 1
  {
    if s == [] {
    } else {
      var front := s[..|s| - 1];
      assert s == front + [s[|s| - 1]];
      DistinctCountsOnce(front, f);
      if f == s[|s| - 1] {
        assert f !in front;
      }
    }
  }

  /** A review whose files have distinct paths, with hunks that go down each file, under either
      orderer: Forward from the entry step, the steps on the wire and the ordered files with their
      hunks are one and the same list, every hunk has its step, and the walk ends after the last. */
  lemma PipelineOrder(o: Orderer, files: seq<ReviewFile>, src: R.Sources, visited: set<string>)
    requires DistinctPaths(files) && AllAscending(files)
    ensures
      var ps := R.Flat(Sort(o, files));
      var view, ids := R.GraphOf(ps, src), R.IdsOf(ps);
      && R.WireSteps(view, ids) == R.HunkSteps(ps, src) && Ids(R.HunkSteps(ps, src)) == ids
      && |view| == |ps|
      && (ps != [] ==> R.EntryOf(ps) == ids[0] && VisitsInOrder(EdgesOf(view), ids, visited))
      && (ps != [] ==>
            var last := Run(EdgesOf(view), Start(R.EntryOf(ps), visited), Forwards(|ps| - 1));
            Forward(EdgesOf(view), last) == Move(last, Err(NoSuchEdge)))
  {
    hide R.GraphOf, R.HunkSteps, R.Flat, R.IdOf, R.WireSteps, Sort, VisitsInOrder, Run, Forward, DistinctPlaces;
    var s := Sort(o, files);
    var ps := R.Flat(s);
    SortKeepsFiles(o, files);
    AscendingPlaces(s);
    WireOrder(ps, src);
    IdsOfSteps(ps, src);
    GraphSize(ps, src);
    if ps != [] {
      ForwardOrder(ps, src, visited);
    }
  }

  /** The files that have hunks. */
  function Changed(files: seq<ReviewFile>): seq<ReviewFile> {
    if files == [] then []
    else
      var last := files[|files| - 1];
      Changed(files[..|files| - 1]) + if last.hunks == [] then [] else [last]
  }

  lemma {:induction false} ChangedKeepsHunks(files: seq<ReviewFile>)
    ensures R.Flat(Changed(files)) == R.Flat(files)
  {
    hide R.Places;
    if files == [] {
    } else {
      var last := files[|files| - 1];
      var c := Changed(files[..|files| - 1]);
      ChangedKeepsHunks(files[..|files| - 1]);
      if last.hunks == [] {
        NoHunksNoPlaces(last.path);
        assert c + [] == c;
      } else {
        assert (c + [last])[..|c|] == c;
      }
    }
  }

  lemma {:induction false} ChangedMembers(files: seq<ReviewFile>)
    ensures forall f :: f in Changed(files) <==> f in files && f.hunks != []
  {
    if files == [] {
    } else {
      ChangedMembers(files[..|files| - 1]);
      assert files == files[..|files| - 1] + [files[|files| - 1]];
    }
  }

  lemma {:induction false} ChangedDistinct(files: seq<ReviewFile>)
    requires DistinctPaths(files)
    ensures DistinctPaths(Changed(files))
  {
    if files == [] {
    } else {
      var front, last := files[..|files| - 1], files[|files| - 1];
      ChangedDistinct(front);
      ChangedMembers(front);
      forall f | f in Changed(front)
        ensures f.path != last.path
      {
        NoOtherPath(files, f);
      }
    }
  }

  lemma NoHunksNoPlaces(path: string)
    ensures R.Places(path, []) == []
  {
  }

  ghost predicate SameFiles(a: seq<ReviewFile>, b: seq<ReviewFile>) {
    forall f :: f in a <==> f in b
  }

  lemma {:induction false} SameEmpty(a: seq<ReviewFile>, b: seq<ReviewFile>)
    requires SameFiles(a, b)
    ensures a == [] <==> b == []
  {
    if a != [] {
      assert a[0] in b;
    }
    if b == [] {
    } else {
      assert b[0] in a;
    }
  }

  /** Files with hunks and distinct paths are told apart, with their order, by their step IDs. */
  lemma {:induction false} IdsTellFiles(a: seq<ReviewFile>, b: seq<ReviewFile>)
    requires DistinctPaths(a) && DistinctPaths(b) && SameFiles(a, b)
    requires forall f <- a :: f.hunks != []
    requires R.IdsOf(R.Flat(a)) == R.IdsOf(R.Flat(b))
    ensures a == b
  {
    hide R.Flat, R.IdOf;
    SameEmpty(a, b);
    if a == [] {
    } else {
      var fa, la, fb, lb := a[..|a| - 1], a[|a| - 1], b[..|b| - 1], b[|b| - 1];
      LastPlaced(a);
      LastPlaced(b);
      var pa, pb := R.Flat(a), R.Flat(b);
      assert R.IdsOf(pa)[|pa| - 1] == R.IdsOf(pb)[|pb| - 1];
      SameIdSamePath(pa[|pa| - 1], pb[|pb| - 1]);
      assert la in b && lb in a;
      SamePathSameFile(a, la, lb);
      FrontIds(a, b);
      FrontFacts(a, b);
      IdsTellFiles(fa, fb);
      assert a == fa + [la] && b == fb + [lb];
    }
  }

  lemma {:induction false} LastPlaced(a: seq<ReviewFile>)
    requires a != [] && a[|a| - 1].hunks != []
    ensures
      var ps := R.Flat(a);
      ps != [] && ps[|ps| - 1].path == a[|a| - 1].path
      && ps == R.Flat(a[..|a| - 1]) + R.Places(a[|a| - 1].path, a[|a| - 1].hunks)
  {
  }

  lemma {:induction false} SameIdSamePath(p: Placed, q: Placed)
    requires R.IdOf(p) == R.IdOf(q)
    ensures p.path == q.path
  {
    IdInjective(p.path, p.hunk.newRange.start, q.path, q.hunk.newRange.start);
  }

  lemma {:induction false} SamePathSameFile(a: seq<ReviewFile>, f: ReviewFile, f': ReviewFile)
    requires DistinctPaths(a) && f in a && f' in a && f.path == f'.path
    ensures f == f'
  {
    var i :| 0 <= i < |a| && a[i] == f;
    var j :| 0 <= j < |a| && a[j] == f';
    assert i < j || j < i || i == j;
  }

  lemma {:induction false} FrontIds(a: seq<ReviewFile>, b: seq<ReviewFile>)
    requires a != [] && b != [] && a[|a| - 1] == b[|b| - 1] && a[|a| - 1].hunks != []
    requires R.IdsOf(R.Flat(a)) == R.IdsOf(R.Flat(b))
    ensures R.IdsOf(R.Flat(a[..|a| - 1])) == R.IdsOf(R.Flat(b[..|b| - 1]))
  {
    hide R.IdOf;
    LastPlaced(a);
    LastPlaced(b);
    var fa, fb := R.Flat(a[..|a| - 1]), R.Flat(b[..|b| - 1]);
    assert |fa| == |fb|;
    forall i | 0 <= i < |fa|
      ensures R.IdsOf(fa)[i] == R.IdsOf(fb)[i]
    {
      assert R.IdsOf(R.Flat(a))[i] == R.IdsOf(fa)[i] && R.IdsOf(R.Flat(b))[i] == R.IdsOf(fb)[i];
    }
  }

  lemma {:induction false} FrontFacts(a: seq<ReviewFile>, b: seq<ReviewFile>)
    requires DistinctPaths(a) && DistinctPaths(b) && SameFiles(a, b)
    requires a != [] && b != [] && a[|a| - 1] == b[|b| - 1]
    ensures DistinctPaths(a[..|a| - 1]) && DistinctPaths(b[..|b| - 1])
    ensures SameFiles(a[..|a| - 1], b[..|b| - 1])
  {
    OnlyLast(a, a[..|a| - 1]);
    OnlyLast(b, b[..|b| - 1]);
  }

  lemma {:induction false} OnlyLast(a: seq<ReviewFile>, front: seq<ReviewFile>)
    requires DistinctPaths(a) && a != [] && front == a[..|a| - 1]
    ensures forall f :: f in front <==> f in a && f != a[|a| - 1]
  {
    assert a == front + [a[|a| - 1]];
  }

  /** The order in which the forge lists files with distinct paths has no influence on the review
      under the sorting orderers. As fetched, it has none if and only if the files that have hunks
      come in the same order. */
  lemma PipelineCanonical(o: Orderer, a: seq<ReviewFile>, b: seq<ReviewFile>, src: R.Sources)
    requires multiset(a) == multiset(b) && DistinctPaths(a)
    ensures
      R.IdsOf(R.Flat(Sort(o, a))) == R.IdsOf(R.Flat(Sort(o, b))) <==> !o.AsFetched? || Changed(a) == Changed(b)
    ensures !o.AsFetched? || Changed(a) == Changed(b) ==>
      R.Flat(Sort(o, a)) == R.Flat(Sort(o, b)) && R.GraphOf(R.Flat(Sort(o, a)), src) == R.GraphOf(R.Flat(Sort(o, b)), src)
  {
    hide Sort, R.Flat, R.IdsOf, R.GraphOf, Changed;
    forall i, j | 0 <= i < j < |b|
      ensures b[i].path != b[j].path
    {
      SamePathTwice(a, b, i, j);
    }
    if o.AsFetched? {
      AsFetchedAgrees(a, b);
    } else {
      OrderOfInputIrrelevant(o, a, b);
    }
  }

  lemma AsFetchedAgrees(a: seq<ReviewFile>, b: seq<ReviewFile>)
    requires multiset(a) == multiset(b) && DistinctPaths(a) && DistinctPaths(b)
    ensures Sort(AsFetched, a) == a && Sort(AsFetched, b) == b
    ensures R.IdsOf(R.Flat(a)) == R.IdsOf(R.Flat(b)) <==> Changed(a) == Changed(b)
    ensures Changed(a) == Changed(b) ==> R.Flat(a) == R.Flat(b)
  {
    hide Sort, R.Flat, R.IdsOf, Changed, DistinctPaths;
    SortAsFetched(a);
    SortAsFetched(b);
    ChangedKeepsHunks(a);
    ChangedKeepsHunks(b);
    ChangedMembers(a);
    ChangedMembers(b);
    ChangedDistinct(a);
    ChangedDistinct(b);
    assert forall f :: f in a <==> f in multiset(a);
    assert forall f :: f in b <==> f in multiset(b);
    if R.IdsOf(R.Flat(a)) == R.IdsOf(R.Flat(b)) {
      IdsTellFiles(Changed(a), Changed(b));
    }
  }

  /** As fetched, two files with hunks are reviewed in the order in which they are listed. */
  lemma AsFetchedFollowsForge(a: ReviewFile, b: ReviewFile)
    requires a.path != b.path && a.hunks != [] && b.hunks != []
    ensures multiset([a, b]) == multiset([b, a])
    ensures R.IdsOf(R.Flat(Sort(AsFetched, [a, b]))) != R.IdsOf(R.Flat(Sort(AsFetched, [b, a])))
  {
    hide Sort, R.Flat, R.IdsOf, Changed;
    ChangedPair(a, b);
    ChangedPair(b, a);
    assert [a, b][0] != [b, a][0];
    PipelineCanonical(AsFetched, [a, b], [b, a], R.Sources(map[], false));
  }

  lemma ChangedPair(a: ReviewFile, b: ReviewFile)
    requires a.hunks != [] && b.hunks != []
    ensures Changed([a, b]) == [a, b]
  {
    assert [a, b][..1] == [a] && [a][..0] == [];
    assert Changed([a]) == [a];
  }
}
