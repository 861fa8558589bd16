/** What the search finds. */
module CycleTheory {
  import opened StepGraph
  import opened Cycles

  // ------------------------------------------------------------------ walks and cycles

  ghost predicate Link(adj: Adjacency, p: seq<string>, i: nat)
    requires i + 1 < |p|
  {
    Arc(adj, p[i], p[i + 1])
  }

  ghost predicate IsWalk(adj: Adjacency, p: seq<string>) {
    p != [] && forall i: nat {:trigger Link(adj, p, i)} :: i + 1 < |p| ==> Link(adj, p, i)
  }

  ghost predicate IsCycle(adj: Adjacency, c: seq<string>) {
    IsWalk(adj, c) && Arc(adj, c[|c| - 1], c[0])
  }

  /** The arc that leaves position i of the closed walk c. */
  function After(c: seq<string>, i: nat): string
    requires i < |c|
  {
    if i + 1 < |c| then c[i + 1] else c[0]
  }

  /** Some arc of the closed walk c has both ends in ids. */
  ghost predicate Hits(c: seq<string>, ids: seq<string>) {
    exists i :: 0 <= i < |c| && c[i] in ids && After(c, i) in ids
  }

  /** x is an end of the arc that closes the simple cycle c, and both its ends are in ids. */
  ghost predicate Closes(adj: Adjacency, ids: seq<string>, c: seq<string>, x: string) {
    IsCycle(adj, c) && Distinct(c) && c[0] in ids && c[|c| - 1] in ids && (x == c[0] || x == c[|c| - 1])
  }

  ghost predicate OnClosedCycle(adj: Adjacency, ids: seq<string>, x: string) {
    exists c :: Closes(adj, ids, c, x)
  }

  ghost predicate Sound(adj: Adjacency, ids: seq<string>) {
    forall x {:trigger OnClosedCycle(adj, ids, x)} :: x in ids ==> OnClosedCycle(adj, ids, x)
  }

  // ------------------------------------------------------------------ the search invariant

  /** The target t of an edge out of u has been dealt with: skipped, finished, or recorded with u. */
  ghost predicate Handled(finished: seq<string>, cyclic: seq<string>, u: string, t: string) {
    t == "" || t in finished || (u in cyclic && t in cyclic)
  }

  /** Every edge of u has been dealt with. */
  ghost predicate AllHandled(adj: Adjacency, finished: seq<string>, cyclic: seq<string>, u: string) {
    u in adj ==> forall i :: 0 <= i < |adj[u]| ==> Handled(finished, cyclic, u, adj[u][i].targetStepId)
  }

  ghost predicate Settled(adj: Adjacency, st: SearchState, k: nat)
    requires k < |st.finished|
  {
    AllHandled(adj, st.finished[..k], st.cyclic, st.finished[k])
  }

  /** The visit of u ends no later than the visit of v: either it has, or both are active and
      v lies at or below u on the path. */
  ghost predicate EndsFirst(finished: seq<string>, path: seq<string>, u: string, v: string) {
    || (exists i, j :: 0 <= i <= j < |finished| && finished[i] == u && finished[j] == v)
    || (u in finished && v in path)
    || (exists i, j :: 0 <= i <= j < |path| && path[i] == v && path[j] == u)
  }

  ghost predicate BackArc(adj: Adjacency, finished: seq<string>, path: seq<string>, u: string, v: string) {
    Arc(adj, u, v) && EndsFirst(finished, path, u, v)
  }

  ghost predicate BackEnd(adj: Adjacency, finished: seq<string>, path: seq<string>, x: string) {
    exists u, v :: BackArc(adj, finished, path, u, v) && (x == u || x == v)
  }

  ghost predicate OnlyBackEnds(adj: Adjacency, st: SearchState, path: seq<string>) {
    forall x {:trigger BackEnd(adj, st.finished, path, x)} :: x in st.cyclic ==> BackEnd(adj, st.finished, path, x)
  }

  /** path is the active recursion path of the search. */
  ghost predicate Inv(adj: Adjacency, st: SearchState, path: seq<string>) {
    && (forall x :: x in path <==> x in st.inStack)
    && (forall x :: x in st.visited <==> x in path || x in st.finished)
    && (forall x <- path :: x !in st.finished)
    && Distinct(path) && Distinct(st.finished) && Distinct(st.cyclic)
    && (path != [] ==> IsWalk(adj, path))
    && (forall k: nat {:trigger Settled(adj, st, k)} :: k < |st.finished| ==> Settled(adj, st, k))
    && Sound(adj, st.cyclic) && OnlyBackEnds(adj, st, path)
  }

  /** A search only appends to its two logs. */
  ghost predicate Grows(a: SearchState, b: SearchState) {
    a.visited <= b.visited && a.finished <= b.finished && a.cyclic <= b.cyclic
  }

  lemma RecordFacts(ids: seq<string>, x: string)
    requires Distinct(ids)
    ensures Distinct(Record(ids, x)) && ids <= Record(ids, x) && x in Record(ids, x)
    ensures forall y <- Record(ids, x) :: y in ids || y == x
  {
    var r := Record(ids, x);
    if x !in ids {
      assert r[|ids|] == x;
      forall i, j | 0 <= i < j < |r|
        ensures r[i] != r[j]
      {
        assert r[i] in ids;
      }
    }
  }

  lemma ClosesMonotone(adj: Adjacency, ids: seq<string>, r: seq<string>, x: string)
    requires OnClosedCycle(adj, ids, x) && ids <= r
    ensures OnClosedCycle(adj, r, x)
  {
    var d :| Closes(adj, ids, d, x);
    MemberMonotone(ids, r, d[0]);
    MemberMonotone(ids, r, d[|d| - 1]);
    assert Closes(adj, r, d, x);
  }

  lemma MemberMonotone(ids: seq<string>, r: seq<string>, x: string)
    requires ids <= r && x in ids
    ensures x in r
  {
    var i :| 0 <= i < |ids| && ids[i] == x;
    assert r[i] == x;
  }

  lemma RecordPairFacts(ids: seq<string>, a: string, b: string)
    requires Distinct(ids)
    ensures
      var r := Record(Record(ids, a), b);
      Distinct(r) && ids <= r && a in r && b in r && forall x <- r :: x in ids || x == a || x == b
  {
    RecordFacts(ids, a);
    RecordFacts(Record(ids, a), b);
    MemberMonotone(Record(ids, a), Record(Record(ids, a), b), a);
  }

  lemma RecordSound(adj: Adjacency, ids: seq<string>, c: seq<string>)
    requires Distinct(ids) && Sound(adj, ids)
    requires IsCycle(adj, c) && Distinct(c)
    ensures Sound(adj, Record(Record(ids, c[0]), c[|c| - 1]))
  {
    var r := Record(Record(ids, c[0]), c[|c| - 1]);
    RecordPairFacts(ids, c[0], c[|c| - 1]);
    forall x | x in r
      ensures OnClosedCycle(adj, r, x)
    {
      RecordSoundAt(adj, ids, r, c, x);
    }
  }

  lemma RecordSoundAt(adj: Adjacency, ids: seq<string>, r: seq<string>, c: seq<string>, x: string)
    requires Sound(adj, ids) && ids <= r
    requires IsCycle(adj, c) && Distinct(c) && c[0] in r && c[|c| - 1] in r
    requires x in ids || x == c[0] || x == c[|c| - 1]
    ensures OnClosedCycle(adj, r, x)
  {
    if x in ids {
      assert OnClosedCycle(adj, ids, x);
      ClosesMonotone(adj, ids, r, x);
    } else {
      assert Closes(adj, r, c, x);
    }
  }

  lemma TailIsWalk(adj: Adjacency, p: seq<string>, k: nat)
    requires IsWalk(adj, p) && k < |p|
    ensures IsWalk(adj, p[k..])
  {
    forall i: nat | i + 1 < |p[k..]|
      ensures Link(adj, p[k..], i)
    {
      assert Link(adj, p, k + i);
    }
  }

  lemma ExtendWalk(adj: Adjacency, p: seq<string>, v: string)
    requires p != [] ==> IsWalk(adj, p) && Arc(adj, p[|p| - 1], v)
    ensures IsWalk(adj, p + [v])
  {
    forall i: nat | i + 1 < |p + [v]|
      ensures Link(adj, p + [v], i)
    {
      if i + 1 < |p| {
        assert Link(adj, p, i);
      }
    }
  }

  /** A back edge closes the part of the active path from its target to its source. */
  lemma BackEdge(adj: Adjacency, id: string, target: string, st: SearchState, path: seq<string>)
    requires Inv(adj, st, path) && path != [] && path[|path| - 1] == id
    requires Arc(adj, id, target) && target in st.inStack
    ensures
      var r := st.(cyclic := Record(Record(st.cyclic, target), id));
      Inv(adj, r, path) && Grows(st, r) && Handled(r.finished, r.cyclic, id, target)
  {
    var r := st.(cyclic := Record(Record(st.cyclic, target), id));
    var k :| 0 <= k < |path| && path[k] == target;
    TailIsWalk(adj, path, k);
    assert path[k..][0] == target && path[k..][|path[k..]| - 1] == id;
    RecordPairFacts(st.cyclic, target, id);
    RecordSound(adj, st.cyclic, path[k..]) by {
      assert Distinct(path[k..]);
    }
    SettledMonotone(adj, st, r);
    BackEdgeEnds(adj, st, path, k);
  }

  lemma BackEdgeEnds(adj: Adjacency, st: SearchState, path: seq<string>, k: nat)
    requires k < |path| && Distinct(st.cyclic) && OnlyBackEnds(adj, st, path)
    requires Arc(adj, path[|path| - 1], path[k])
    ensures OnlyBackEnds(adj, st.(cyclic := Record(Record(st.cyclic, path[k]), path[|path| - 1])), path)
  {
    var u, v := path[|path| - 1], path[k];
    RecordPairFacts(st.cyclic, v, u);
    forall x | x in Record(Record(st.cyclic, v), u)
      ensures BackEnd(adj, st.finished, path, x)
    {
      if x in st.cyclic {
      } else {
        assert BackArc(adj, st.finished, path, u, v);
      }
    }
  }

  /** Recording more IDs unsettles nothing. */
  lemma SettledMonotone(adj: Adjacency, st: SearchState, r: SearchState)
    requires forall k: nat {:trigger Settled(adj, st, k)} :: k < |st.finished| ==> Settled(adj, st, k)
    requires r.finished == st.finished && st.cyclic <= r.cyclic
    ensures forall k: nat {:trigger Settled(adj, r, k)} :: k < |r.finished| ==> Settled(adj, r, k)
  {
    forall k: nat | k < |r.finished|
      ensures Settled(adj, r, k)
    {
      assert Settled(adj, st, k);
    }
  }

  lemma {:induction false} VisitKeepsInv(adj: Adjacency, id: string, st: SearchState, path: seq<string>)
    requires Inv(adj, st, path)
    requires id in Universe(adj) && id !in st.visited
    requires path == [] || Arc(adj, path[|path| - 1], id)
    decreases Universe(adj) - st.visited, 0
    ensures
      var r := Visit(adj, id, st);
      Inv(adj, r, path) && Grows(st, r) && id in r.finished
  {
    var entered := st.(visited := st.visited + {id}, inStack := st.inStack + {id});
    var path1 := path + [id];
    EnterKeepsInv(adj, id, st, path);
    assert id in Universe(adj) - st.visited && id !in Universe(adj) - entered.visited;
    var explored := entered;
    if id in adj {
      VisitEdgesKeepsInv(adj, id, 0, entered, path1);
      assert adj[id][0..] == adj[id];
      explored := VisitEdges(adj, id, adj[id], entered);
    }
    LeaveKeepsInv(adj, id, explored, path);
  }

  lemma EnterKeepsInv(adj: Adjacency, id: string, st: SearchState, path: seq<string>)
    requires Inv(adj, st, path) && id !in st.visited
    requires path == [] || Arc(adj, path[|path| - 1], id)
    ensures
      var r := st.(visited := st.visited + {id}, inStack := st.inStack + {id});
      Inv(adj, r, path + [id]) && Grows(st, r)
  {
    var r := st.(visited := st.visited + {id}, inStack := st.inStack + {id});
    ExtendWalk(adj, path, id);
    SettledMonotone(adj, st, r);
    forall x | x in st.cyclic
      ensures BackEnd(adj, r.finished, path + [id], x)
    {
      assert BackEnd(adj, st.finished, path, x);
      var u, v :| BackArc(adj, st.finished, path, u, v) && (x == u || x == v);
      EnterKeepsOrder(st.finished, path, id, u, v);
      assert BackArc(adj, r.finished, path + [id], u, v);
    }
  }

  lemma EnterKeepsOrder(finished: seq<string>, path: seq<string>, id: string, u: string, v: string)
    requires EndsFirst(finished, path, u, v)
    ensures EndsFirst(finished, path + [id], u, v)
  {
    if i, j :| 0 <= i <= j < |path| && path[i] == v && path[j] == u {
      assert (path + [id])[i] == v && (path + [id])[j] == u;
    }
  }

  lemma LeaveKeepsOrder(finished: seq<string>, path: seq<string>, id: string, u: string, v: string)
    requires EndsFirst(finished, path + [id], u, v)
    requires id !in path
    ensures EndsFirst(finished + [id], path, u, v)
  {
    var f, p := finished + [id], path + [id];
    if i, j :| 0 <= i <= j < |finished| && finished[i] == u && finished[j] == v {
      assert f[i] == u && f[j] == v;
    } else if u in finished && v in p {
      var i :| 0 <= i < |finished| && finished[i] == u;
      assert f[i] == u && f[|finished|] == id;
    } else {
      var i, j :| 0 <= i <= j < |p| && p[i] == v && p[j] == u;
      if j < |path| {
        assert path[i] == v && path[j] == u;
      } else {
        assert f[|finished|] == u;
        assert i < |path| ==> path[i] == v;
      }
    }
  }

  lemma LeaveKeepsInv(adj: Adjacency, id: string, st: SearchState, path: seq<string>)
    requires Inv(adj, st, path + [id])
    requires AllHandled(adj, st.finished, st.cyclic, id)
    ensures
      var r := st.(inStack := st.inStack - {id}, finished := st.finished + [id]);
      Inv(adj, r, path) && Grows(st, r)
  {
    var r := st.(inStack := st.inStack - {id}, finished := st.finished + [id]);
    PrefixFacts(adj, path, id);
    forall x | x in st.cyclic
      ensures BackEnd(adj, r.finished, path, x)
    {
      assert BackEnd(adj, st.finished, path + [id], x);
      var u, v :| BackArc(adj, st.finished, path + [id], u, v) && (x == u || x == v);
      LeaveKeepsOrder(st.finished, path, id, u, v);
      assert BackArc(adj, r.finished, path, u, v);
    }
    forall k: nat | k < |r.finished|
      ensures Settled(adj, r, k)
    {
      if k < |st.finished| {
        assert Settled(adj, st, k);
        assert r.finished[..k] == st.finished[..k];
      } else {
        assert r.finished[..k] == st.finished;
      }
    }
  }

  lemma PrefixFacts(adj: Adjacency, path: seq<string>, id: string)
    requires Distinct(path + [id]) && IsWalk(adj, path + [id])
    ensures Distinct(path) && id !in path && (path != [] ==> IsWalk(adj, path))
    ensures forall x :: x in path + [id] <==> x in path || x == id
  {
    var p := path + [id];
    forall i, j | 0 <= i < j < |path|
      ensures path[i] != path[j]
    {
      assert p[i] == path[i] && p[j] == path[j];
    }
    forall x | x in path
      ensures x != id
    {
      var i :| 0 <= i < |path| && path[i] == x;
      assert p[i] == x && p[|path|] == id;
    }
    forall i: nat | i + 1 < |path|
      ensures Link(adj, path, i)
    {
      assert Link(adj, p, i);
    }
  }

  lemma {:induction false} VisitEdgeKeepsInv(
      adj: Adjacency, id: string, target: string, st: SearchState, path: seq<string>)
    requires Inv(adj, st, path) && path != [] && path[|path| - 1] == id
    requires target in Universe(adj) && (target != "" ==> Arc(adj, id, target))
    decreases Universe(adj) - st.visited, 1
    ensures
      var r := VisitEdge(adj, id, target, st);
      Inv(adj, r, path) && Grows(st, r) && Handled(r.finished, r.cyclic, id, target)
  {
    if target == "" {
    } else if target !in st.visited {
      VisitKeepsInv(adj, target, st, path);
    } else if target in st.inStack {
      BackEdge(adj, id, target, st, path);
    }
  }

  /** The edges of id from position k on, when those before k have been handled. */
  lemma {:induction false} VisitEdgesKeepsInv(
      adj: Adjacency, id: string, k: nat, st: SearchState, path: seq<string>)
    requires Inv(adj, st, path) && path != [] && path[|path| - 1] == id
    requires id in adj && k <= |adj[id]|
    requires HandledUpTo(adj, st, id, k)
    decreases Universe(adj) - st.visited, 2 + |adj[id]| - k
    ensures
      var r := VisitEdges(adj, id, adj[id][k..], st);
      Inv(adj, r, path) && Grows(st, r) && AllHandled(adj, r.finished, r.cyclic, id)
  {
    if k < |adj[id]| {
      var target := adj[id][k].targetStepId;
      VisitEdgeKeepsInv(adj, id, target, st, path);
      var st1 := VisitEdge(adj, id, target, st);
      assert adj[id][k..][0] == adj[id][k] && adj[id][k..][1..] == adj[id][k + 1..];
      assert Universe(adj) - st1.visited <= Universe(adj) - st.visited;
      HandledMonotone(adj, st, st1, id, k);
      VisitEdgesKeepsInv(adj, id, k + 1, st1, path);
    }
  }

  ghost predicate HandledUpTo(adj: Adjacency, st: SearchState, id: string, k: nat)
    requires id in adj && k <= |adj[id]|
  {
    forall i :: 0 <= i < k ==> Handled(st.finished, st.cyclic, id, adj[id][i].targetStepId)
  }

  lemma HandledMonotone(adj: Adjacency, st: SearchState, st1: SearchState, id: string, k: nat)
    requires id in adj && k <= |adj[id]| && HandledUpTo(adj, st, id, k) && Grows(st, st1)
    ensures HandledUpTo(adj, st1, id, k)
  {
    forall i | 0 <= i < k
      ensures Handled(st1.finished, st1.cyclic, id, adj[id][i].targetStepId)
    {
      assert Handled(st.finished, st.cyclic, id, adj[id][i].targetStepId);
    }
  }

  lemma {:induction false} VisitRootsKeepsInv(adj: Adjacency, roots: seq<string>, st: SearchState)
    requires Inv(adj, st, [])
    requires forall id <- roots :: id in adj
    ensures
      var r := VisitRoots(adj, roots, st);
      Inv(adj, r, []) && Grows(st, r) && forall id <- roots :: id in r.finished
  {
    if roots == [] {
    } else {
      var st1 := if roots[0] in st.visited then st else Visit(adj, roots[0], st);
      if roots[0] !in st.visited {
        VisitKeepsInv(adj, roots[0], st, []);
      }
      VisitRootsKeepsInv(adj, roots[1..], st1);
    }
  }

  // ------------------------------------------------------------------ consequences

  /** What is recorded has been visited. */
  lemma RecordedVisited(adj: Adjacency, st: SearchState, path: seq<string>, x: string)
    requires Inv(adj, st, path) && x in st.cyclic
    ensures x in st.visited
  {
    assert BackEnd(adj, st.finished, path, x);
    var u, v :| BackArc(adj, st.finished, path, u, v) && (x == u || x == v);
    assert EndsFirst(st.finished, path, u, v);
  }

  /** A visit ends only after all targets of its edges have been visited. */
  lemma FinishedLeadsToVisited(adj: Adjacency, st: SearchState, path: seq<string>, u: string, v: string)
    requires Inv(adj, st, path) && u in st.finished && Arc(adj, u, v)
    ensures v in st.visited
  {
    var at :| 0 <= at < |st.finished| && st.finished[at] == u;
    assert Settled(adj, st, at);
    var i :| 0 <= i < |adj[u]| && adj[u][i].targetStepId == v;
    assert Handled(st.finished[..at], st.cyclic, u, adj[u][i].targetStepId);
    if v in st.finished[..at] {
      MemberMonotone(st.finished[..at], st.finished, v);
    } else {
      RecordedVisited(adj, st, path, v);
    }
  }

  /** Both ends of an arc whose target's visit does not end first are recorded. */
  lemma BackArcRecorded(adj: Adjacency, st: SearchState, u: string, v: string, i: nat, j: nat)
    requires Inv(adj, st, []) && Arc(adj, u, v)
    requires i <= j < |st.finished| && st.finished[i] == u && st.finished[j] == v
    ensures u in st.cyclic && v in st.cyclic
  {
    var k :| 0 <= k < |adj[u]| && adj[u][k].targetStepId == v;
    assert Settled(adj, st, i);
    assert Handled(st.finished[..i], st.cyclic, u, adj[u][k].targetStepId);
    assert v !in st.finished[..i];
  }

  /** Some arc of the closed walk c is one that a search recorded: its target's visit ended no
      earlier than its source's. */
  ghost predicate HasBackArc(adj: Adjacency, finished: seq<string>, c: seq<string>) {
    exists i :: 0 <= i < |c| && BackArc(adj, finished, [], c[i], After(c, i))
  }

  /** Without such an arc, visits along the walk end earlier and earlier. */
  lemma {:induction false} WalkDescends(adj: Adjacency, st: SearchState, c: seq<string>, k: nat, at: nat) returns (end: nat)
    requires Inv(adj, st, []) && IsWalk(adj, c) && k < |c|
    requires at < |st.finished| && st.finished[at] == c[0]
    ensures HasBackArc(adj, st.finished, c) || (end <= at && st.finished[end] == c[k])
  {
    hide Inv, IsWalk, HasBackArc, Arc;
    if k == 0 {
      end := at;
    } else {
      end := WalkDescends(adj, st, c, k - 1, at);
      if !HasBackArc(adj, st.finished, c) {
        WalkArc(adj, c, k - 1);
        end := ArcDescends(adj, st, c, k - 1, end);
      }
    }
  }

  lemma WalkArc(adj: Adjacency, c: seq<string>, i: nat)
    requires IsWalk(adj, c) && i + 1 < |c|
    ensures After(c, i) == c[i + 1] && Arc(adj, c[i], c[i + 1])
  {
    assert Link(adj, c, i);
  }

  lemma ArcDescends(adj: Adjacency, st: SearchState, c: seq<string>, i: nat, at: nat) returns (end: nat)
    requires Inv(adj, st, []) && i < |c| && Arc(adj, c[i], After(c, i))
    requires at < |st.finished| && st.finished[at] == c[i]
    ensures HasBackArc(adj, st.finished, c) || (end < at && st.finished[end] == After(c, i))
  {
    FinishedLeadsToVisited(adj, st, [], c[i], After(c, i));
    end :| 0 <= end < |st.finished| && st.finished[end] == After(c, i);
    assert at <= end ==> BackArc(adj, st.finished, [], c[i], After(c, i));
  }

  /** Every cycle holds a recorded arc. */
  lemma EveryCycleHasBackArc(adj: Adjacency, st: SearchState, c: seq<string>)
    requires Inv(adj, st, []) && IsCycle(adj, c)
    requires forall u :: u in adj ==> u in st.finished
    ensures HasBackArc(adj, st.finished, c) && Hits(c, st.cyclic)
  {
    var n := |c| - 1;
    assert c[0] in adj by {
      if n > 0 { assert Link(adj, c, 0); }
    }
    var at :| 0 <= at < |st.finished| && st.finished[at] == c[0];
    var last := WalkDescends(adj, st, c, n, at);
    if !HasBackArc(adj, st.finished, c) {
      var end := ArcDescends(adj, st, c, n, last);
    }
    var i :| 0 <= i < |c| && BackArc(adj, st.finished, [], c[i], After(c, i));
    var a, b :| 0 <= a <= b < |st.finished| && st.finished[a] == c[i] && st.finished[b] == After(c, i);
    BackArcRecorded(adj, st, c[i], After(c, i), a, b);
  }

  /** The search reports exactly what its documentation can promise, in every root order:
      no ID twice, each on a simple cycle that it closes, and on every cycle an arc with both ends
      reported, one whose target's visit ended no earlier than its source's. The argument is the order
      in which visits end: an arc that is not recorded leads to an ID whose visit ended earlier, and no
      closed walk can go down for ever. */
  lemma DetectCorrect(adj: Adjacency, roots: seq<string>)
    requires Enumerates(roots, adj)
    ensures Distinct(Detect(adj, roots))
    ensures Sound(adj, Detect(adj, roots))
    ensures forall c :: IsCycle(adj, c) ==>
      HasBackArc(adj, VisitRoots(adj, roots, FRESH).finished, c) && Hits(c, Detect(adj, roots))
    ensures Detect(adj, roots) == [] <==> !exists c :: IsCycle(adj, c)
  {
    assert Inv(adj, FRESH, []);
    VisitRootsKeepsInv(adj, roots, FRESH);
    var r := VisitRoots(adj, roots, FRESH);
    forall c | IsCycle(adj, c)
      ensures HasBackArc(adj, r.finished, c) && Hits(c, r.cyclic)
    {
      EveryCycleHasBackArc(adj, r, c);
    }
    NoneIffAcyclic(adj, r.cyclic);
  }

  lemma NoneIffAcyclic(adj: Adjacency, ids: seq<string>)
    requires Sound(adj, ids)
    requires forall c :: IsCycle(adj, c) ==> Hits(c, ids)
    ensures ids == [] <==> !exists c :: IsCycle(adj, c)
  {
    if ids != [] {
      assert OnClosedCycle(adj, ids, ids[0]);
      var c :| Closes(adj, ids, c, ids[0]);
      assert IsCycle(adj, c);
    }
  }

  /** There is a walk from u to v whose steps after the first lie outside avoid. */
  ghost predicate Around(adj: Adjacency, u: string, v: string, avoid: set<string>) {
    exists w :: AroundBy(adj, w, u, v, avoid)
  }

  ghost predicate AroundBy(adj: Adjacency, w: seq<string>, u: string, v: string, avoid: set<string>) {
    IsWalk(adj, w) && w[0] == u && w[|w| - 1] == v && forall i :: 1 <= i < |w| ==> w[i] !in avoid
  }

  lemma StartAround(adj: Adjacency, u: string, avoid: set<string>)
    ensures Around(adj, u, u, avoid)
  {
    assert AroundBy(adj, [u], u, u, avoid);
  }

  lemma StepAround(adj: Adjacency, u: string, t: string, v: string, avoid: set<string>, more: set<string>)
    requires Arc(adj, u, t) && t !in avoid && avoid <= more && Around(adj, t, v, more)
    ensures Around(adj, u, v, avoid)
  {
    var w :| AroundBy(adj, w, t, v, more);
    var long := [u] + w;
    forall i: nat | i + 1 < |long|
      ensures Link(adj, long, i)
    {
      if i > 0 {
        assert Link(adj, w, i - 1);
      }
    }
    assert AroundBy(adj, long, u, v, avoid);
  }

  /** A visit of id reaches what it visits by walks around what had been visited before. */
  lemma {:induction false} VisitGoesAround(adj: Adjacency, id: string, st: SearchState, y: string)
    requires id in Universe(adj) && id !in st.visited
    requires y !in st.visited && y in Visit(adj, id, st).visited
    decreases Universe(adj) - st.visited, 0
    ensures Around(adj, id, y, st.visited + {id})
  {
    var entered := st.(visited := st.visited + {id}, inStack := st.inStack + {id});
    if y == id {
      StartAround(adj, id, st.visited + {id});
    } else {
      assert id in Universe(adj) - st.visited && id !in Universe(adj) - entered.visited;
      assert adj[id][0..] == adj[id];
      EdgesGoAround(adj, id, 0, entered, y);
    }
  }

  lemma {:induction false} EdgesGoAround(adj: Adjacency, id: string, k: nat, st: SearchState, y: string)
    requires id in adj && k <= |adj[id]| && y !in st.visited
    requires forall e <- adj[id][k..] :: e.targetStepId in Universe(adj)
    requires y in VisitEdges(adj, id, adj[id][k..], st).visited
    decreases Universe(adj) - st.visited, 2 + |adj[id]| - k
    ensures Around(adj, id, y, st.visited)
  {
    var target := adj[id][k].targetStepId;
    var st1 := VisitEdge(adj, id, target, st);
    assert adj[id][k..][0] == adj[id][k] && adj[id][k..][1..] == adj[id][k + 1..];
    if y in st1.visited {
      VisitGoesAround(adj, target, st, y);
      StepAround(adj, id, target, y, st.visited, st.visited + {target});
    } else {
      assert Universe(adj) - st1.visited <= Universe(adj) - st.visited;
      EdgesGoAround(adj, id, k + 1, st1, y);
      var w :| AroundBy(adj, w, id, y, st1.visited);
      assert AroundBy(adj, w, id, y, st.visited);
    }
  }

  lemma {:induction false} RootsVisitTargets(adj: Adjacency, roots: seq<string>, st: SearchState, y: string)
    requires forall id <- roots :: id in adj
    requires y !in st.visited && y in VisitRoots(adj, roots, st).visited
    ensures y in adj || exists u :: Arc(adj, u, y)
  {
    var st1 := if roots[0] in st.visited then st else Visit(adj, roots[0], st);
    if y in st1.visited {
      VisitGoesAround(adj, roots[0], st, y);
      var w :| AroundBy(adj, w, roots[0], y, st.visited + {roots[0]});
      if |w| > 1 {
        assert Link(adj, w, |w| - 2);
      }
    } else {
      RootsVisitTargets(adj, roots[1..], st1, y);
    }
  }

  /** Exactly the steps and the targets of their edges, dangling ones too, are visited, each exactly
      once, and the stack is left empty. */
  lemma DetectVisitsAll(adj: Adjacency, roots: seq<string>)
    requires Enumerates(roots, adj)
    ensures
      var r := VisitRoots(adj, roots, FRESH);
      && r.inStack == {} && Distinct(r.finished)
      && (forall x :: x in r.visited <==> x in r.finished)
      && (forall x :: x in r.visited <==> x in adj || exists u :: Arc(adj, u, x))
  {
    assert Inv(adj, FRESH, []);
    VisitRootsKeepsInv(adj, roots, FRESH);
    var r := VisitRoots(adj, roots, FRESH);
    forall x
      ensures x in r.visited <==> x in adj || exists u :: Arc(adj, u, x)
    {
      if x in r.visited {
        RootsVisitTargets(adj, roots, FRESH, x);
      } else if u :| Arc(adj, u, x) {
        FinishedLeadsToVisited(adj, r, [], u, x);
      }
    }
  }

  /** Exactly the ends of back arcs are recorded: of the arcs whose target's visit does not end
      before the visit of their source. */
  lemma DetectExact(adj: Adjacency, roots: seq<string>, x: string)
    requires Enumerates(roots, adj)
    ensures
      x in Detect(adj, roots) <==>
      exists i, j ::
        0 <= i <= j < |VisitRoots(adj, roots, FRESH).finished| &&
        var f := VisitRoots(adj, roots, FRESH).finished;
        Arc(adj, f[i], f[j]) && (x == f[i] || x == f[j])
  {
    assert Inv(adj, FRESH, []);
    VisitRootsKeepsInv(adj, roots, FRESH);
    var r := VisitRoots(adj, roots, FRESH);
    if x in r.cyclic {
      assert BackEnd(adj, r.finished, [], x);
    }
    forall i, j | 0 <= i <= j < |r.finished| && Arc(adj, r.finished[i], r.finished[j])
      ensures r.finished[i] in r.cyclic && r.finished[j] in r.cyclic
    {
      BackArcRecorded(adj, r, r.finished[i], r.finished[j], i, j);
    }
  }

  /** An ID on a self-loop or on a cycle of two steps is reported in every root order. */
  lemma ShortCyclesReported(adj: Adjacency, roots: seq<string>, u: string, v: string)
    requires Enumerates(roots, adj) && Arc(adj, u, v) && Arc(adj, v, u)
    ensures u in Detect(adj, roots)
  {
    DetectCorrect(adj, roots);
    var c := [u, v];
    assert Link(adj, c, 0);
    assert IsCycle(adj, c);
    var i :| 0 <= i < |c| && c[i] in Detect(adj, roots) && After(c, i) in Detect(adj, roots);
  }

  ghost predicate OnCycle(adj: Adjacency, x: string) {
    exists c :: IsCycle(adj, c) && x in c
  }

  ghost predicate OnShortCycle(adj: Adjacency, x: string) {
    exists v :: Arc(adj, x, v) && Arc(adj, v, x)
  }

  lemma ReportedOnCycle(adj: Adjacency, roots: seq<string>, x: string)
    requires Enumerates(roots, adj) && x in Detect(adj, roots)
    ensures OnCycle(adj, x)
  {
    DetectCorrect(adj, roots);
    assert OnClosedCycle(adj, Detect(adj, roots), x);
    var c :| Closes(adj, Detect(adj, roots), c, x);
    assert IsCycle(adj, c) && x in c;
  }

  /** The promise of the program's comment, "all IDs that take part in a cycle", is kept in every
      root order on a graph where each such ID has a self-loop or a two-step cycle. */
  lemma AllReportedWhenShort(adj: Adjacency, roots: seq<string>, x: string)
    requires Enumerates(roots, adj)
    requires OnCycle(adj, x) ==> OnShortCycle(adj, x)
    ensures x in Detect(adj, roots) <==> OnCycle(adj, x)
  {
    if x in Detect(adj, roots) {
      ReportedOnCycle(adj, roots, x);
    } else if OnCycle(adj, x) {
      var v :| Arc(adj, x, v) && Arc(adj, v, x);
      ShortCyclesReported(adj, roots, x, v);
    }
  }

  // ------------------------------------------------------------------ graphs with a rank

  lemma {:induction false} RankRises(adj: Adjacency, rank: string -> int, p: seq<string>, k: nat)
    requires forall u, v :: Arc(adj, u, v) ==> rank(u) < rank(v)
    requires IsWalk(adj, p) && k < |p|
    ensures rank(p[0]) + k <= rank(p[k])
  {
    if k == 0 {
    } else {
      RankRises(adj, rank, p, k - 1);
      assert Link(adj, p, k - 1);
    }
  }

  lemma RankedIsAcyclic(adj: Adjacency, rank: string -> int)
    requires forall u, v :: Arc(adj, u, v) ==> rank(u) < rank(v)
    ensures !exists c :: IsCycle(adj, c)
  {
    forall c | IsCycle(adj, c)
      ensures false
    {
      RankRises(adj, rank, c, |c| - 1);
    }
  }
}
