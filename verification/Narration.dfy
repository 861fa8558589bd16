/** One Navigate call as a machine: what it sends on its stream, under every order in which the
    provider, the summary goroutine, the client and the scheduler may act. */
module Narration {
  import opened Outcomes
  import opened StepGraph
  import opened Walking

  datatype StepSummary = StepSummary(
    breaking: string, risk: string, whatChanged: string, sideEffects: string,
    tests: string, reviewerFocus: string, suggestion: string, confidence: string)

  datatype CachedStep = CachedStep(tokens: seq<string>, summary: Option<StepSummary>)

  /** What the critical section of a call hands on: the step reached, its navigable edges and
      the labels of the breadcrumb. */
  datatype Snapshot = Snapshot(stepId: string, hasHunk: bool, edges: seq<StepEdge>, crumb: seq<string>)

  datatype Event =
    | Token(text: string)
    | SummaryReady(summary: StepSummary)
    | Complete(stepId: string, edges: seq<StepEdge>, crumb: seq<string>, final: Option<StepSummary>)

  function CompleteOf(snap: Snapshot, summary: Option<StepSummary>): Event {
    Complete(snap.stepId, snap.edges, snap.crumb, summary)
  }

  function TokenEvents(tokens: seq<string>): seq<Event> {
    if tokens == [] then [] else [Token(tokens[0])] + TokenEvents(tokens[1..])
  }

  function SummaryEvents(summary: Option<StepSummary>): seq<Event> {
    if summary.Some? then [SummaryReady(summary.value)] else []
  }

  /** The stream with SummaryReady, if there is one, after the first at tokens. */
  function LiveTrace(snap: Snapshot, entry: CachedStep, at: nat): seq<Event>
    requires at <= |entry.tokens|
  {
    TokenEvents(entry.tokens[..at]) + SummaryEvents(entry.summary) + TokenEvents(entry.tokens[at..])
    + [CompleteOf(snap, entry.summary)]
  }

  /** The stream of a cached step: the tokens, then the summary, then Complete. */
  function ReplayTrace(snap: Snapshot, entry: CachedStep): seq<Event> {
    TokenEvents(entry.tokens) + SummaryEvents(entry.summary) + [CompleteOf(snap, entry.summary)]
  }

  datatype Request = Go(cmd: Command) | UnknownDirection | NoDestination

  datatype Failure = InvalidRequest | NavigationFailed | NarrationFailed | Cancelled | SendFailed | CompleteNotSent

  datatype Phase =
    | Waiting                                  // before the critical section
    | Located                                  // moved, about to look up the cache
    | Replaying(entry: CachedStep, next: nat)  // sending the events of a cached step
    | Starting                                 // the provider is being called
    | Draining                                 // in the select loop
    | Drained                                  // out of the loop, about to write the cache
    | Written                                  // about to send Complete
    | Done
    | Failed(why: Failure)

  /** The goroutine that produces the summary, and its single send into the one-slot channel. */
  datatype Task = NoTask | Working | Finished

  datatype Rpc = Rpc(
    request: Request, phase: Phase, snap: Option<Snapshot>, sent: seq<Event>,
    called: bool,                       // the provider has been asked
    stream: seq<string>,                // what the token channel delivers until it is closed
    received: seq<string>,
    tokenOpen: bool, awaiting: bool,    // the two channel variables are not nil
    task: Task, slot: seq<Option<StepSummary>>,
    produced: Option<StepSummary>,      // what the goroutine sent, nil on a failure
    summary: Option<StepSummary>,
    wrote: bool)                        // the cache has been written

  function NewRpc(request: Request): Rpc {
    Rpc(request, Waiting, None, [], false, [], [], false, false, NoTask, [], None, None, false)
  }

  datatype Action =
    | NarrateOk(tokens: seq<string>)
    | NarrateFails
    | Summarise(result: Option<StepSummary>)
    | Receive(ok: bool)
    | Close
    | TakeSummary(ok: bool)
    | Cancel
    | SendComplete(ok: bool)
    | ReplaySend(ok: bool)
    | ReplayCancel

  /** The loop is left when both channel variables are nil. */
  function LeaveIfDrained(p: Rpc): Rpc {
    if p.phase.Draining? && !p.tokenOpen && !p.awaiting then p.(phase := Drained) else p
  }

  function Fail(p: Rpc, why: Failure): Rpc {
    p.(phase := Failed(why))
  }

  /** What one action does to the call. An action that is not possible in p is ignored, so that
      every sequence of actions is a schedule. */
  function Act(p: Rpc, a: Action): Rpc {
    match a
    case NarrateOk(tokens) =>
      if p.phase.Starting? then p.(phase := Draining, stream := tokens, tokenOpen := true) else p
    case NarrateFails =>
      if p.phase.Starting? then Fail(p, NarrationFailed) else p
    case Summarise(result) =>
      if p.task.Working? && |p.slot| < 1 then p.(task := Finished, produced := result, slot := [result]) else p
    case Receive(ok) =>
      if p.phase.Draining? && p.tokenOpen && |p.received| < |p.stream| then
        var token := p.stream[|p.received|];
        var q := p.(received := p.received + [token]);
        if ok then q.(sent := q.sent + [Token(token)]) else Fail(q, SendFailed)
      else p
    case Close =>
      if p.phase.Draining? && p.tokenOpen && |p.received| >= |p.stream| then
        LeaveIfDrained(p.(tokenOpen := false))
      else p
    case TakeSummary(ok) =>
      if p.phase.Draining? && p.awaiting && p.slot != [] then
        var q := p.(awaiting := false, slot := [], summary := p.slot[0]);
        if q.summary.None? then LeaveIfDrained(q)
        else if ok then LeaveIfDrained(q.(sent := q.sent + [SummaryReady(q.summary.value)]))
        else Fail(q, SendFailed)
      else p
    case Cancel =>
      if p.phase.Draining? then Fail(p, Cancelled) else p
    case SendComplete(ok) =>
      if p.phase.Written? && p.snap.Some? then
        if ok then p.(phase := Done, sent := p.sent + [CompleteOf(p.snap.value, p.summary)])
        else Fail(p, CompleteNotSent)
      else p
    case ReplaySend(ok) =>
      if p.phase.Replaying? && p.snap.Some? then
        var trace := ReplayTrace(p.snap.value, p.phase.entry);
        var next := p.phase.next;
        if next >= |trace| then p
        else if !ok then Fail(p, SendFailed)
        else
          p.(sent := p.sent + [trace[next]],
             phase := if next + 1 == |trace| then Done else Replaying(p.phase.entry, next + 1))
      else p
    case ReplayCancel =>
      // The context is checked before each token, not before the summary or Complete.
      if p.phase.Replaying? && p.phase.next < |p.phase.entry.tokens| then Fail(p, Cancelled) else p
  }

  function Acts(p: Rpc, acts: seq<Action>): Rpc
    decreases acts
  {
    if acts == [] then p else Acts(Act(p, acts[0]), acts[1..])
  }

  /** The lookup: a hit is replayed, a miss starts the summary goroutine for a hunk and calls
      the provider. */
  function LookUp(p: Rpc, cached: Option<CachedStep>): Rpc {
    if p.phase.Located? && p.snap.Some? then
      match cached
      case Some(entry) => p.(phase := Replaying(entry, 0))
      case None =>
        p.(phase := Starting, called := true, awaiting := p.snap.value.hasHunk,
           task := if p.snap.value.hasHunk then Working else NoTask)
    else p
  }

  /** What the call writes into the cache. */
  function EntryOf(p: Rpc): CachedStep {
    CachedStep(p.received, p.summary)
  }
}
