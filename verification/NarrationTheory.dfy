/** What every schedule of one call preserves, and which streams a call can produce. */
module NarrationTheory {
  import opened Outcomes
  import opened Narration

  // ------------------------------------------------------------------ projections of a stream

  function Tokens(evs: seq<Event>): seq<string> {
    if evs == [] then []
    else Tokens(evs[..|evs| - 1]) + if evs[|evs| - 1].Token? then [evs[|evs| - 1].text] else []
  }

  function Summaries(evs: seq<Event>): seq<StepSummary> {
    if evs == [] then []
    else Summaries(evs[..|evs| - 1]) + if evs[|evs| - 1].SummaryReady? then [evs[|evs| - 1].summary] else []
  }

  ghost predicate NoComplete(evs: seq<Event>) {
    forall e <- evs :: !e.Complete?
  }

  lemma ProjectSnoc(evs: seq<Event>, e: Event)
    ensures Tokens(evs + [e]) == Tokens(evs) + if e.Token? then [e.text] else []
    ensures Summaries(evs + [e]) == Summaries(evs) + if e.SummaryReady? then [e.summary] else []
    ensures NoComplete(evs + [e]) <==> NoComplete(evs) && !e.Complete?
  {
    assert (evs + [e])[..|evs|] == evs;
    if NoComplete(evs + [e]) {
      forall x | x in evs ensures !x.Complete? { assert x in evs + [e]; }
      assert e in evs + [e];
    }
  }

  function AsSeq(summary: Option<StepSummary>): seq<StepSummary> {
    if summary.Some? then [summary.value] else []
  }

  // ------------------------------------------------------------------ the invariant of a call

  /** The goroutine and its channel: while the goroutine works the slot is free, so its one send
      cannot block, whatever has become of the call. */
  ghost predicate TaskInv(p: Rpc) {
    && (p.task.Working? ==> p.slot == [] && p.produced.None?)
    && |p.slot| <= 1 && (p.slot != [] ==> p.slot == [p.produced])
    && (!p.called ==> p.task.NoTask?) && (p.task.NoTask? ==> p.slot == [] && p.produced.None?)
  }

  /** A call in its select loop or past it. */
  ghost predicate LiveInv(p: Rpc) {
    && p.snap.Some? && p.called
    && p.received <= p.stream
    && Tokens(p.sent) == p.received && Summaries(p.sent) == AsSeq(p.summary) && NoComplete(p.sent)
    && (p.task.NoTask? <==> !p.snap.value.hasHunk)
    && (p.awaiting ==> p.snap.value.hasHunk && p.summary.None? && (p.task.Finished? ==> p.slot == [p.produced]))
    && (!p.awaiting ==> p.summary == p.produced && !p.task.Working?)
    && (!p.tokenOpen ==> p.received == p.stream)
  }

  ghost predicate PhaseInv(p: Rpc) {
    match p.phase
    case Waiting => p.snap.None? && p.sent == [] && !p.called && !p.wrote && Untouched(p)
    case Located => p.snap.Some? && p.sent == [] && !p.called && !p.wrote && Untouched(p)
    case Replaying(entry, next) =>
      p.snap.Some? && !p.called && !p.wrote &&
      next < |ReplayTrace(p.snap.value, entry)| && p.sent == ReplayTrace(p.snap.value, entry)[..next]
    case Starting =>
      p.snap.Some? && p.called && !p.wrote && p.sent == [] && Untouched(p) &&
      p.awaiting == p.snap.value.hasHunk && (p.task.NoTask? <==> !p.snap.value.hasHunk) &&
      (p.task.Finished? ==> p.slot == [p.produced])
    case Draining => LiveInv(p) && !p.wrote && (p.tokenOpen || p.awaiting)
    case Drained => LiveInv(p) && !p.wrote && !p.tokenOpen && !p.awaiting
    case Written => LiveInv(p) && p.wrote && !p.tokenOpen && !p.awaiting
    case Done =>
      p.snap.Some? &&
      if p.called then
        p.wrote && p.sent != [] && LiveInv(p.(sent := p.sent[..|p.sent| - 1])) && !p.tokenOpen && !p.awaiting &&
        p.sent[|p.sent| - 1] == CompleteOf(p.snap.value, p.summary)
      else
        !p.wrote && exists entry :: p.sent == ReplayTrace(p.snap.value, entry)
    case Failed(why) =>
      NoComplete(p.sent) && (p.wrote <==> why.CompleteNotSent?) &&
      (p.called ==> p.snap.Some?) &&
      (why.CompleteNotSent? ==> LiveInv(p) && !p.tokenOpen && !p.awaiting)
  }

  ghost predicate Untouched(p: Rpc) {
    p.received == [] && p.stream == [] && p.summary.None?
  }

  ghost predicate RpcInv(p: Rpc) {
    TaskInv(p) && PhaseInv(p)
  }

  lemma {:induction false} TokenEventsFacts(tokens: seq<string>)
    ensures |TokenEvents(tokens)| == |tokens|
    ensures forall i :: 0 <= i < |tokens| ==> TokenEvents(tokens)[i] == Token(tokens[i])
  {
    if tokens == [] {
    } else {
      TokenEventsFacts(tokens[1..]);
    }
  }

  /** Complete is the last event of a replay and only that. */
  lemma ReplayLast(snap: Snapshot, entry: CachedStep)
    ensures
      var t := ReplayTrace(snap, entry);
      t != [] && t[|t| - 1] == CompleteOf(snap, entry.summary) && NoComplete(t[..|t| - 1])
  {
    TokenEventsFacts(entry.tokens);
  }

  lemma ReplayPrefix(snap: Snapshot, entry: CachedStep, next: nat)
    requires next < |ReplayTrace(snap, entry)|
    ensures NoComplete(ReplayTrace(snap, entry)[..next])
  {
    var t := ReplayTrace(snap, entry);
    ReplayLast(snap, entry);
    forall e | e in t[..next]
      ensures !e.Complete?
    {
      var i :| 0 <= i < next && t[..next][i] == e;
      assert t[..|t| - 1][i] == e;
    }
  }

  /** No action breaks the invariant of a call. */
  lemma ActKeepsInv(p: Rpc, a: Action)
    requires RpcInv(p)
    ensures RpcInv(Act(p, a))
  {
    match a
    case Receive(ok) =>
      if p.phase.Draining? && p.tokenOpen && |p.received| < |p.stream| {
        ReceiveKeepsInv(p, ok);
      }
    case TakeSummary(ok) =>
      if p.phase.Draining? && p.awaiting && p.slot != [] {
        TakeKeepsInv(p, ok);
      }
    case SendComplete(ok) =>
      if p.phase.Written? {
        CompleteKeepsInv(p, ok);
      }
    case ReplaySend(ok) =>
      if p.phase.Replaying? {
        ReplayKeepsInv(p, ok);
      }
    case ReplayCancel =>
      if p.phase.Replaying? {
        ReplayPrefix(p.snap.value, p.phase.entry, p.phase.next);
      }
    case _ =>
  }

  lemma CompleteKeepsInv(p: Rpc, ok: bool)
    requires RpcInv(p) && p.phase.Written?
    ensures RpcInv(Act(p, SendComplete(ok)))
  {
    var q := Act(p, SendComplete(ok));
    assert ok ==> q.sent[..|q.sent| - 1] == p.sent;
    assert ok ==> q.(sent := q.sent[..|q.sent| - 1]) == p.(phase := Done);
  }

  lemma ReceiveKeepsInv(p: Rpc, ok: bool)
    requires RpcInv(p) && p.phase.Draining? && p.tokenOpen && |p.received| < |p.stream|
    ensures RpcInv(Act(p, Receive(ok)))
  {
    var token := p.stream[|p.received|];
    ProjectSnoc(p.sent, Token(token));
    assert p.received + [token] == p.stream[..|p.received| + 1];
  }

  lemma TakeKeepsInv(p: Rpc, ok: bool)
    requires RpcInv(p) && p.phase.Draining? && p.awaiting && p.slot != []
    ensures RpcInv(Act(p, TakeSummary(ok)))
  {
    if p.slot[0].Some? {
      ProjectSnoc(p.sent, SummaryReady(p.slot[0].value));
    }
  }

  lemma ReplayKeepsInv(p: Rpc, ok: bool)
    requires RpcInv(p) && p.phase.Replaying?
    ensures RpcInv(Act(p, ReplaySend(ok)))
  {
    var trace := ReplayTrace(p.snap.value, p.phase.entry);
    var next := p.phase.next;
    ReplayPrefix(p.snap.value, p.phase.entry, next);
    assert trace[..next + 1] == trace[..next] + [trace[next]];
    assert trace[..|trace|] == trace;
  }

  lemma LookUpKeepsInv(p: Rpc, cached: Option<CachedStep>)
    requires RpcInv(p)
    ensures RpcInv(LookUp(p, cached))
  {
    if p.phase.Located? && cached.Some? {
      ReplayLast(p.snap.value, cached.value);
    }
  }

  lemma {:induction false} ActsKeepInv(p: Rpc, acts: seq<Action>)
    requires RpcInv(p)
    decreases acts
    ensures RpcInv(Acts(p, acts))
  {
    if acts == [] {
    } else {
      ActKeepsInv(p, acts[0]);
      ActsKeepInv(Act(p, acts[0]), acts[1..]);
    }
  }

  // ------------------------------------------------------------------ which streams are sent

  ghost predicate SplitAt(evs: seq<Event>, ts: seq<string>, ss: seq<StepSummary>, at: nat) {
    at <= |ts| &&
    evs == TokenEvents(ts[..at]) + (if ss == [] then [] else [SummaryReady(ss[0])]) + TokenEvents(ts[at..])
  }

  /** A stream without Complete and with at most one summary is the tokens with the summary
      put in somewhere. */
  lemma {:induction false} Interleaved(evs: seq<Event>) returns (at: nat)
    requires NoComplete(evs) && |Summaries(evs)| <= 1
    ensures SplitAt(evs, Tokens(evs), Summaries(evs), at)
  {
    if evs == [] {
      at := 0;
    } else {
      var front, e := evs[..|evs| - 1], evs[|evs| - 1];
      assert evs == front + [e];
      ProjectSnoc(front, e);
      hide *;
      at := Interleaved(front);
      at := SplitSnoc(front, Tokens(front), Summaries(front), at, e);
    }
  }

  lemma SplitSnoc(front: seq<Event>, ts: seq<string>, ss: seq<StepSummary>, at: nat, e: Event) returns (r: nat)
    requires SplitAt(front, ts, ss, at) && !e.Complete? && (e.SummaryReady? ==> ss == [])
    ensures
      SplitAt(front + [e], ts + (if e.Token? then [e.text] else []),
              ss + (if e.SummaryReady? then [e.summary] else []), r)
  {
    hide TokenEvents;
    if e.Token? {
      r := at;
      TokenEventsSnoc(ts[at..], e.text);
      assert (ts + [e.text])[at..] == ts[at..] + [e.text] && (ts + [e.text])[..at] == ts[..at];
    } else {
      r := |ts|;
      TokenEventsSplit(ts, at);
      assert ts[..|ts|] == ts && ts[|ts|..] == [] && ts + [] == ts;
      NoTokens();
    }
  }

  lemma NoTokens()
    ensures TokenEvents([]) == []
  {
  }

  lemma {:induction false} TokenEventsConcat(a: seq<string>, b: seq<string>)
    ensures TokenEvents(a + b) == TokenEvents(a) + TokenEvents(b)
  {
    if a == [] {
      assert a + b == b;
    } else {
      assert (a + b)[1..] == a[1..] + b;
      TokenEventsConcat(a[1..], b);
    }
  }

  lemma TokenEventsSnoc(tokens: seq<string>, text: string)
    ensures TokenEvents(tokens + [text]) == TokenEvents(tokens) + [Token(text)]
  {
    TokenEventsConcat(tokens, [text]);
    assert [text][1..] == [];
  }

  lemma TokenEventsSplit(tokens: seq<string>, at: nat)
    requires at <= |tokens|
    ensures TokenEvents(tokens) == TokenEvents(tokens[..at]) + TokenEvents(tokens[at..])
  {
    assert tokens == tokens[..at] + tokens[at..];
    TokenEventsConcat(tokens[..at], tokens[at..]);
  }

  /** A call that ended well without a cached step has sent the tokens of its provider, its
      summary somewhere among them, and Complete at the end. */
  lemma DoneLive(p: Rpc) returns (at: nat)
    requires RpcInv(p) && p.phase.Done? && p.called
    ensures p.received == p.stream && at <= |p.stream|
    ensures p.sent == LiveTrace(p.snap.value, EntryOf(p), at)
    ensures p.summary == p.produced && (!p.snap.value.hasHunk ==> p.summary.None?)
  {
    var body := p.sent[..|p.sent| - 1];
    assert p.sent == body + [CompleteOf(p.snap.value, p.summary)];
    at := Interleaved(body);
  }

  /** The call right after a lookup that missed. */
  function Started(request: Request, snap: Snapshot): Rpc {
    LookUp(NewRpc(request).(phase := Located, snap := Some(snap)), None)
  }

  /** The cache write between the loop and Complete. */
  function WriteCache(p: Rpc): Rpc {
    if p.phase.Drained? then p.(phase := Written, wrote := true) else p
  }

  /** Some schedule makes a call that receives the tokens and the summary of entry send t. */
  ghost predicate CanSendLive(request: Request, snap: Snapshot, entry: CachedStep, t: seq<Event>) {
    exists acts :: LiveOutcome(request, snap, entry, acts, t)
  }

  ghost predicate LiveOutcome(request: Request, snap: Snapshot, entry: CachedStep, acts: seq<Action>, t: seq<Event>) {
    var p := Acts(Started(request, snap), acts);
    p.phase.Drained? && p.stream == entry.tokens && p.produced == entry.summary &&
    Act(WriteCache(p), SendComplete(true)).sent == t
  }

  lemma {:induction false} ActsConcat(p: Rpc, a: seq<Action>, b: seq<Action>)
    decreases a
    ensures Acts(p, a + b) == Acts(Acts(p, a), b)
  {
    if a == [] {
      assert a + b == b;
    } else {
      assert (a + b)[1..] == a[1..] + b;
      ActsConcat(Act(p, a[0]), a[1..], b);
    }
  }

  function Receives(k: nat): seq<Action> {
    if k == 0 then [] else [Receive(true)] + Receives(k - 1)
  }

  lemma {:induction false} ReceivesRun(p: Rpc, k: nat)
    requires p.phase.Draining? && p.tokenOpen && |p.received| + k <= |p.stream|
    requires p.received == p.stream[..|p.received|]
    decreases k
    ensures
      var n := |p.received|;
      Acts(p, Receives(k)) ==
      p.(received := p.stream[..n + k], sent := p.sent + TokenEvents(p.stream[n..n + k]))
  {
    hide Act;
    var n := |p.received|;
    if k > 0 {
      var q := Act(p, Receive(true));
      ReceiveOne(p);
      ReceivesRun(q, k - 1);
      assert Receives(k)[1..] == Receives(k - 1);
      assert p.stream[n..n + k][1..] == p.stream[n + 1..n + k];
      assert TokenEvents(p.stream[n..n + k]) == [Token(p.stream[n])] + TokenEvents(p.stream[n + 1..n + k]);
    } else {
      assert p.stream[n..n] == [];
    }
  }

  lemma ReceiveOne(p: Rpc)
    requires p.phase.Draining? && p.tokenOpen && |p.received| < |p.stream|
    requires p.received == p.stream[..|p.received|]
    ensures
      var n := |p.received|;
      Act(p, Receive(true)) == p.(received := p.stream[..n + 1], sent := p.sent + [Token(p.stream[n])])
  {
  }

  /** The schedule that lets at tokens pass before the summary. */
  function ScheduleFor(entry: CachedStep, at: nat): seq<Action>
    requires at <= |entry.tokens|
  {
    [NarrateOk(entry.tokens)] + Receives(at) + [Summarise(entry.summary), TakeSummary(true)]
    + Receives(|entry.tokens| - at) + [Close]
  }

  /** The loop of a hunk or of another step after its first at tokens and its summary. */
  lemma FirstHalf(request: Request, snap: Snapshot, entry: CachedStep, at: nat)
    requires at <= |entry.tokens| && (entry.summary.Some? ==> snap.hasHunk)
    ensures
      var acts := [NarrateOk(entry.tokens)] + Receives(at) + [Summarise(entry.summary), TakeSummary(true)];
      var p := Acts(Started(request, snap), acts);
      && p.phase.Draining? && p.tokenOpen && !p.awaiting && p.snap == Some(snap)
      && p.stream == entry.tokens && p.received == entry.tokens[..at]
      && p.produced == entry.summary && p.summary == entry.summary
      && p.sent == TokenEvents(entry.tokens[..at]) + SummaryEvents(entry.summary)
  {
    hide Acts, TokenEvents, Receives;
    var p0 := Started(request, snap);
    var p1 := Act(p0, NarrateOk(entry.tokens));
    var p2 := Acts(p1, Receives(at));
    OneAct(p0, NarrateOk(entry.tokens));
    ReceivesRun(p1, at);
    assert entry.tokens[0..at] == entry.tokens[..at];
    assert p2.sent == TokenEvents(entry.tokens[..at]);
    TwoActs(p2, Summarise(entry.summary), TakeSummary(true));
    ActsConcat(p0, [NarrateOk(entry.tokens)] + Receives(at), [Summarise(entry.summary), TakeSummary(true)]);
    ActsConcat(p0, [NarrateOk(entry.tokens)], Receives(at));
  }

  lemma SecondHalf(p: Rpc, snap: Snapshot, entry: CachedStep, at: nat)
    requires p.phase.Draining? && p.tokenOpen && !p.awaiting && at <= |entry.tokens| && p.snap == Some(snap)
    requires p.stream == entry.tokens && p.received == entry.tokens[..at] && p.summary == entry.summary
    requires p.sent == TokenEvents(entry.tokens[..at]) + SummaryEvents(entry.summary)
    ensures
      var q := Acts(p, Receives(|entry.tokens| - at) + [Close]);
      && q.phase.Drained? && q.stream == entry.tokens && q.produced == p.produced
      && Act(WriteCache(q), SendComplete(true)).sent == LiveTrace(snap, entry, at)
  {
    hide Acts, TokenEvents, Receives;
    var n := |entry.tokens|;
    ReceivesRun(p, n - at);
    assert entry.tokens[at..n] == entry.tokens[at..];
    ActsConcat(p, Receives(n - at), [Close]);
    OneAct(Acts(p, Receives(n - at)), Close);
  }

  lemma ScheduleRuns(request: Request, snap: Snapshot, entry: CachedStep, at: nat)
    requires at <= |entry.tokens| && (entry.summary.Some? ==> snap.hasHunk)
    ensures LiveOutcome(request, snap, entry, ScheduleFor(entry, at), LiveTrace(snap, entry, at))
  {
    hide Acts, Act, TokenEvents, Receives, LiveTrace, Started;
    var first := [NarrateOk(entry.tokens)] + Receives(at) + [Summarise(entry.summary), TakeSummary(true)];
    var second := Receives(|entry.tokens| - at) + [Close];
    FirstHalf(request, snap, entry, at);
    SecondHalf(Acts(Started(request, snap), first), snap, entry, at);
    ActsConcat(Started(request, snap), first, second);
    assert ScheduleFor(entry, at) == first + second;
  }

  lemma OneAct(p: Rpc, a: Action)
    ensures Acts(p, [a]) == Act(p, a)
  {
    assert [a][1..] == [];
  }

  lemma TwoActs(p: Rpc, a: Action, b: Action)
    ensures Acts(p, [a, b]) == Act(Act(p, a), b)
  {
    assert [a] + [b] == [a, b];
    ActsConcat(p, [a], [b]);
    OneAct(p, a);
    OneAct(Act(p, a), b);
  }

  lemma StartedInv(request: Request, snap: Snapshot)
    ensures RpcInv(Started(request, snap))
  {
  }

  /** The streams of the select loop, over all schedules, are exactly the tokens with the summary
      at any one place, followed by Complete. */
  lemma LiveTracesExactly(request: Request, snap: Snapshot, entry: CachedStep, t: seq<Event>)
    requires entry.summary.Some? ==> snap.hasHunk
    ensures CanSendLive(request, snap, entry, t) <==>
      exists at :: 0 <= at <= |entry.tokens| && t == LiveTrace(snap, entry, at)
  {
    if CanSendLive(request, snap, entry, t) {
      var acts :| LiveOutcome(request, snap, entry, acts, t);
      var p := Acts(Started(request, snap), acts);
      StartedInv(request, snap);
      ActsKeepInv(Started(request, snap), acts);
      KeepsSnap(Started(request, snap), acts);
      var q := Act(WriteCache(p), SendComplete(true));
      ActKeepsInv(WriteCache(p), SendComplete(true));
      var at := DoneLive(q);
      assert EntryOf(q) == entry;
    }
    if at :| 0 <= at <= |entry.tokens| && t == LiveTrace(snap, entry, at) {
      ScheduleRuns(request, snap, entry, at);
    }
  }

  lemma ActKeepsSnap(p: Rpc, a: Action)
    ensures Act(p, a).snap == p.snap && Act(p, a).called == p.called
    ensures Act(p, a).request == p.request && Act(p, a).wrote == p.wrote
  {
    hide ReplayTrace, CompleteOf;
  }

  lemma ActPhases(p: Rpc, a: Action)
    ensures Act(p, a).phase.Waiting? <==> p.phase.Waiting?
    ensures p.phase.Failed? ==> Act(p, a).phase == p.phase
    ensures Act(p, a).phase.Replaying? ==> p.phase.Replaying? && Act(p, a).phase.entry == p.phase.entry
    ensures Act(p, a).phase.Done? && !p.phase.Done? ==> p.phase.Replaying? || p.phase.Written?
    ensures p.phase.Done? ==> Act(p, a).phase.Done? && Act(p, a).sent == p.sent
  {
    hide ReplayTrace;
    match a
    case Receive(ok) =>
    case TakeSummary(ok) =>
    case ReplaySend(ok) =>
    case SendComplete(ok) =>
    case _ =>
  }

  lemma {:induction false} KeepsSnap(p: Rpc, acts: seq<Action>)
    decreases acts
    ensures Acts(p, acts).snap == p.snap && Acts(p, acts).called == p.called
    ensures Acts(p, acts).request == p.request && Acts(p, acts).wrote == p.wrote
  {
    hide Act;
    if acts == [] {
    } else {
      ActKeepsSnap(p, acts[0]);
      KeepsSnap(Act(p, acts[0]), acts[1..]);
    }
  }

  /** Replaying a cached step sends a stream that the select loop could have sent. */
  lemma ReplayRefinesLive(request: Request, snap: Snapshot, entry: CachedStep)
    requires entry.summary.Some? ==> snap.hasHunk
    ensures CanSendLive(request, snap, entry, ReplayTrace(snap, entry))
  {
    ReplayIsLast(snap, entry);
    LiveTracesExactly(request, snap, entry, ReplayTrace(snap, entry));
  }

  lemma ReplayIsLast(snap: Snapshot, entry: CachedStep)
    ensures ReplayTrace(snap, entry) == LiveTrace(snap, entry, |entry.tokens|)
  {
    assert entry.tokens[..|entry.tokens|] == entry.tokens && TokenEvents(entry.tokens[|entry.tokens|..]) == [];
  }

  /** The program's comment calls a replay identical to the live output. A replay belongs to a later
      call with a snapshot of its own. It is identical exactly when both calls end with the same
      Complete and there is no summary or it came after the last token. */
  lemma ReplayIdenticalIff(first: Snapshot, second: Snapshot, entry: CachedStep, at: nat)
    requires at <= |entry.tokens|
    ensures LiveTrace(first, entry, at) == ReplayTrace(second, entry) <==>
      CompleteOf(first, entry.summary) == CompleteOf(second, entry.summary)
      && (entry.summary.None? || at == |entry.tokens|)
  {
    hide CompleteOf;
    SameUpToComplete(entry, at);
    var live, replay := Streaming(entry, at), Streaming(entry, |entry.tokens|);
    LiveIsStreaming(first, entry, at);
    LiveIsStreaming(second, entry, |entry.tokens|);
    ReplayIsLast(second, entry);
    StreamingLength(entry, at);
    StreamingLength(entry, |entry.tokens|);
    LastDiffers(live, CompleteOf(first, entry.summary), replay, CompleteOf(second, entry.summary));
  }

  /** What a live call sends before Complete. */
  function Streaming(entry: CachedStep, at: nat): seq<Event>
    requires at <= |entry.tokens|
  {
    TokenEvents(entry.tokens[..at]) + SummaryEvents(entry.summary) + TokenEvents(entry.tokens[at..])
  }

  lemma LiveIsStreaming(snap: Snapshot, entry: CachedStep, at: nat)
    requires at <= |entry.tokens|
    ensures LiveTrace(snap, entry, at) == Streaming(entry, at) + [CompleteOf(snap, entry.summary)]
  {
  }

  lemma StreamingLength(entry: CachedStep, at: nat)
    requires at <= |entry.tokens|
    ensures |Streaming(entry, at)| == |entry.tokens| + |SummaryEvents(entry.summary)|
  {
    TokenEventsFacts(entry.tokens[..at]);
    TokenEventsFacts(entry.tokens[at..]);
  }

  lemma LastDiffers(a: seq<Event>, x: Event, b: seq<Event>, y: Event)
    requires |a| == |b|
    ensures a + [x] == b + [y] <==> a == b && x == y
  {
    assert (a + [x])[..|a|] == a && (b + [y])[..|b|] == b;
    assert (a + [x])[|a|] == x && (b + [y])[|b|] == y;
  }

  lemma SameUpToComplete(entry: CachedStep, at: nat)
    requires at <= |entry.tokens|
    ensures Streaming(entry, at) == Streaming(entry, |entry.tokens|) <==> entry.summary.None? || at == |entry.tokens|
  {
    TokenEventsSplit(entry.tokens, at);
    TokenEventsSplit(entry.tokens, |entry.tokens|);
    TokenEventsFacts(entry.tokens[..at]);
    TokenEventsFacts(entry.tokens);
    NoTokens();
    assert entry.tokens[..|entry.tokens|] == entry.tokens && entry.tokens[|entry.tokens|..] == [];
    if entry.summary.Some? && at < |entry.tokens| {
      assert Streaming(entry, at)[at] == SummaryReady(entry.summary.value);
      assert Streaming(entry, |entry.tokens|)[at] == Token(entry.tokens[at]);
    } else if entry.summary.None? {
      assert SummaryEvents(entry.summary) == [];
    }
  }

  /** What can be checked before the later call: its replay is identical to every stream the first
      call could have sent exactly when both calls have the same step, edges and breadcrumb and
      there is no summary or no token. */
  lemma AlwaysIdenticalIff(request: Request, first: Snapshot, second: Snapshot, entry: CachedStep)
    requires entry.summary.Some? ==> first.hasHunk
    ensures
      (forall t :: CanSendLive(request, first, entry, t) ==> t == ReplayTrace(second, entry)) <==>
      first.stepId == second.stepId && first.edges == second.edges && first.crumb == second.crumb
      && (entry.summary.None? || entry.tokens == [])
  {
    hide CanSendLive, LiveTrace, ReplayTrace;
    var replay := ReplayTrace(second, entry);
    if forall t :: CanSendLive(request, first, entry, t) ==> t == replay {
      LiveTracesExactly(request, first, entry, LiveTrace(first, entry, 0));
      ReplayIdenticalIff(first, second, entry, 0);
    }
    if CompleteOf(first, entry.summary) == CompleteOf(second, entry.summary) && (entry.summary.None? || entry.tokens == []) {
      forall t | CanSendLive(request, first, entry, t)
        ensures t == replay
      {
        LiveTracesExactly(request, first, entry, t);
        var at :| 0 <= at <= |entry.tokens| && t == LiveTrace(first, entry, at);
        ReplayIdenticalIff(first, second, entry, at);
      }
    }
  }

  /** The events with SummaryReady left out. */
  function WithoutSummary(evs: seq<Event>): seq<Event> {
    if evs == [] then []
    else (if evs[0].SummaryReady? then [] else [evs[0]]) + WithoutSummary(evs[1..])
  }

  lemma {:induction false} WithoutConcat(a: seq<Event>, b: seq<Event>)
    ensures WithoutSummary(a + b) == WithoutSummary(a) + WithoutSummary(b)
  {
    if a == [] {
      assert a + b == b;
    } else {
      assert (a + b)[1..] == a[1..] + b;
      WithoutConcat(a[1..], b);
    }
  }

  lemma {:induction false} WithoutTokens(tokens: seq<string>)
    ensures WithoutSummary(TokenEvents(tokens)) == TokenEvents(tokens)
  {
    if tokens == [] {
    } else {
      WithoutTokens(tokens[1..]);
    }
  }

  /** Up to the position of SummaryReady, a live stream and a replay for another snapshot are the
      same tokens followed by each call's own Complete. */
  lemma LiveEqualsReplayUpToSummary(first: Snapshot, second: Snapshot, entry: CachedStep, at: nat)
    requires at <= |entry.tokens|
    ensures
      WithoutSummary(LiveTrace(first, entry, at)) == TokenEvents(entry.tokens) + [CompleteOf(first, entry.summary)]
    ensures
      WithoutSummary(ReplayTrace(second, entry)) == TokenEvents(entry.tokens) + [CompleteOf(second, entry.summary)]
    ensures WithoutSummary(LiveTrace(first, entry, at)) == WithoutSummary(ReplayTrace(second, entry)) <==>
      CompleteOf(first, entry.summary) == CompleteOf(second, entry.summary)
  {
    hide CompleteOf, LiveTrace, ReplayTrace, WithoutSummary;
    WithoutLive(first, entry, at);
    WithoutLive(second, entry, |entry.tokens|);
    ReplayIsLast(second, entry);
    LastDiffers(TokenEvents(entry.tokens), CompleteOf(first, entry.summary),
                TokenEvents(entry.tokens), CompleteOf(second, entry.summary));
  }

  lemma WithoutLive(snap: Snapshot, entry: CachedStep, at: nat)
    requires at <= |entry.tokens|
    ensures WithoutSummary(LiveTrace(snap, entry, at)) ==
      TokenEvents(entry.tokens) + [CompleteOf(snap, entry.summary)]
  {
    var a, m, b := TokenEvents(entry.tokens[..at]), SummaryEvents(entry.summary), TokenEvents(entry.tokens[at..]);
    var c := [CompleteOf(snap, entry.summary)];
    WithoutConcat(a + m + b, c);
    WithoutConcat(a + m, b);
    WithoutConcat(a, m);
    WithoutTokens(entry.tokens[..at]);
    WithoutTokens(entry.tokens[at..]);
    assert WithoutSummary(m) == [] by {
      if m != [] { assert m[1..] == []; }
    }
    assert WithoutSummary(c) == c by { assert c[1..] == []; }
    TokenEventsSplit(entry.tokens, at);
  }

  // ------------------------------------------------------------------ progress

  /** What is left to do from the select loop on. */
  function Measure(p: Rpc): nat
    requires |p.received| <= |p.stream|
  {
    (if p.task.Working? then 1 else 0) +
    match p.phase
    case Draining =>
      2 + (|p.stream| - |p.received|) + (if p.tokenOpen then 1 else 0) + (if p.awaiting then 1 else 0)
    case Drained => 2
    case Written => 1
    case _ => 0
  }

  /** Every action that does anything in the loop or after it brings the call closer to its end. */
  lemma ActDecreases(p: Rpc, a: Action)
    requires RpcInv(p) && (p.phase.Draining? || p.phase.Drained? || p.phase.Written?) && Act(p, a) != p
    ensures |p.received| <= |p.stream| && |Act(p, a).received| <= |Act(p, a).stream|
    ensures Measure(Act(p, a)) < Measure(p)
  {
    hide ReplayTrace, CompleteOf, Tokens, Summaries, NoComplete;
    ActKeepsInv(p, a);
  }

  /** The select loop is never stuck: with the tokens and a summary delivered and no failure, some
      action gets it on. */
  function NextAction(p: Rpc, result: Option<StepSummary>): Action {
    if p.tokenOpen then (if |p.received| < |p.stream| then Receive(true) else Close)
    else if p.task.Working? then Summarise(result)
    else TakeSummary(true)
  }

  lemma {:induction false} LoopEnds(p: Rpc, result: Option<StepSummary>) returns (acts: seq<Action>)
    requires RpcInv(p) && p.phase.Draining?
    ensures |p.received| <= |p.stream| && |acts| <= Measure(p)
    ensures Acts(p, acts).phase.Drained?
    decreases Measure(p)
  {
    var a := NextAction(p, result);
    var q := Act(p, a);
    ActKeepsInv(p, a);
    ActDecreases(p, a);
    if q.phase.Drained? {
      acts := [a];
      OneAct(p, a);
    } else {
      var rest := LoopEnds(q, result);
      acts := [a] + rest;
      assert acts[1..] == rest;
    }
  }

  // ------------------------------------------------------------------ what the streams carry

  /** The stream t of a call: these tokens in order, the summary once if there is one, and last, only
      there, a Complete with the call's step, edges and breadcrumb and with the same summary. */
  ghost predicate Streams(t: seq<Event>, snap: Snapshot, entry: CachedStep) {
    && t != [] && t[|t| - 1].Complete?
    && t[|t| - 1].stepId == snap.stepId && t[|t| - 1].edges == snap.edges && t[|t| - 1].crumb == snap.crumb
    && t[|t| - 1].final == entry.summary
    && Tokens(t) == entry.tokens && Summaries(t) == AsSeq(entry.summary) && NoComplete(t[..|t| - 1])
  }

  lemma {:induction false} ProjectConcat(a: seq<Event>, b: seq<Event>)
    ensures Tokens(a + b) == Tokens(a) + Tokens(b) && Summaries(a + b) == Summaries(a) + Summaries(b)
    ensures NoComplete(a + b) <==> NoComplete(a) && NoComplete(b)
  {
    if b == [] {
      assert a + b == a;
    } else {
      hide Tokens, Summaries, NoComplete;
      var n := |b| - 1;
      ProjectConcat(a, b[..n]);
      ProjectSnoc(a + b[..n], b[n]);
      ProjectSnoc(b[..n], b[n]);
      assert a + b == a + b[..n] + [b[n]] && b == b[..n] + [b[n]];
    }
  }

  lemma {:induction false} ProjectTokens(tokens: seq<string>)
    ensures Tokens(TokenEvents(tokens)) == tokens && Summaries(TokenEvents(tokens)) == [] && NoComplete(TokenEvents(tokens))
  {
    if tokens == [] {
    } else {
      hide Tokens, Summaries, NoComplete;
      ProjectTokens(tokens[1..]);
      ProjectConcat([Token(tokens[0])], TokenEvents(tokens[1..]));
      ProjectOne(Token(tokens[0]));
    }
  }

  lemma ProjectOne(e: Event)
    ensures Tokens([e]) == (if e.Token? then [e.text] else [])
    ensures Summaries([e]) == if e.SummaryReady? then [e.summary] else []
    ensures NoComplete([e]) <==> !e.Complete?
  {
    ProjectSnoc([], e);
    assert [] + [e] == [e];
  }

  lemma ProjectSummary(summary: Option<StepSummary>)
    ensures Tokens(SummaryEvents(summary)) == [] && Summaries(SummaryEvents(summary)) == AsSeq(summary)
    ensures NoComplete(SummaryEvents(summary))
  {
    if summary.Some? {
      ProjectOne(SummaryReady(summary.value));
    }
  }

  lemma LiveStreams(snap: Snapshot, entry: CachedStep, at: nat)
    requires at <= |entry.tokens|
    ensures Streams(LiveTrace(snap, entry, at), snap, entry)
  {
    hide Tokens, Summaries, NoComplete, TokenEvents, SummaryEvents;
    var a, m, b := TokenEvents(entry.tokens[..at]), SummaryEvents(entry.summary), TokenEvents(entry.tokens[at..]);
    var c := CompleteOf(snap, entry.summary);
    ProjectTokens(entry.tokens[..at]);
    ProjectTokens(entry.tokens[at..]);
    ProjectSummary(entry.summary);
    ProjectConcat(a, m);
    ProjectConcat(a + m, b);
    ProjectConcat(a + m + b, [c]);
    ProjectOne(c);
    var t := LiveTrace(snap, entry, at);
    assert t == a + m + b + [c] && t[..|t| - 1] == a + m + b;
    assert entry.tokens == entry.tokens[..at] + entry.tokens[at..];
  }

  lemma ReplayStreams(snap: Snapshot, entry: CachedStep)
    ensures Streams(ReplayTrace(snap, entry), snap, entry)
  {
    ReplayIsLast(snap, entry);
    LiveStreams(snap, entry, |entry.tokens|);
  }

  // ------------------------------------------------------------------ how a call fails

  /** The action ends the call, for the reason given. */
  ghost predicate Fails(p: Rpc, a: Action, why: Failure) {
    match p.phase
    case Starting => a.NarrateFails? && why == NarrationFailed
    case Draining =>
      || (a.Cancel? && why == Cancelled)
      || (a == Receive(false) && p.tokenOpen && |p.received| < |p.stream| && why == SendFailed)
      || (a == TakeSummary(false) && p.awaiting && p.slot != [] && p.slot[0].Some? && why == SendFailed)
    case Written => a == SendComplete(false) && p.snap.Some? && why == CompleteNotSent
    case Replaying(entry, next) =>
      || (a.ReplayCancel? && next < |entry.tokens| && why == Cancelled)
      || (a == ReplaySend(false) && p.snap.Some? && next < |ReplayTrace(p.snap.value, entry)| && why == SendFailed)
    case _ => false
  }

  /** A call fails by exactly these actions; nothing more is sent, and the cache is not written. */
  lemma FailsIff(p: Rpc, a: Action, why: Failure)
    requires !p.phase.Failed?
    ensures Act(p, a).phase == Failed(why) <==> Fails(p, a, why)
    ensures Fails(p, a, why) ==> Act(p, a).sent == p.sent && Act(p, a).wrote == p.wrote
  {
    hide ReplayTrace, CompleteOf;
    match p.phase
    case Draining => LoopFailsIff(p, a, why);
    case Replaying(entry, next) => ReplayFailsIff(p, a, why);
    case _ =>
  }

  lemma LoopFailsIff(p: Rpc, a: Action, why: Failure)
    requires p.phase.Draining?
    ensures Act(p, a).phase == Failed(why) <==> Fails(p, a, why)
    ensures Fails(p, a, why) ==> Act(p, a).sent == p.sent && Act(p, a).wrote == p.wrote
  {
    hide ReplayTrace, CompleteOf;
    match a
    case Receive(ok) =>
    case TakeSummary(ok) =>
    case _ =>
  }

  lemma ReplayFailsIff(p: Rpc, a: Action, why: Failure)
    requires p.phase.Replaying?
    ensures Act(p, a).phase == Failed(why) <==> Fails(p, a, why)
    ensures Fails(p, a, why) ==> Act(p, a).sent == p.sent && Act(p, a).wrote == p.wrote
  {
    hide ReplayTrace, CompleteOf;
  }
}
