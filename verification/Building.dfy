/** Compiling a forest of parsed nodes into steps, as functions of the nodes and of the
    counter that numbers them. Steps are listed in the order in which they are added. */
module Building {
  import opened Outcomes
  import opened StepGraph
  import opened Decimals

  datatype NodeKind =
    | FunctionNode | ConditionalNode | LoopNode | AssignmentNode | CallNode | SwitchNode | ReturnNode | BlockNode

  datatype CallRef = CallRef(pkg: string, symbol: string, line: int, internalCall: bool, targetNodeID: string)

  datatype Node = Node(
    id: string, kind: NodeKind, labelText: string,
    startLine: int, endLine: int, startCol: int, endCol: int, text: string,
    children: seq<Node>, calls: seq<CallRef>)

  function KindOf(k: NodeKind): StepKind {
    match k
    case FunctionNode => Entry
    case ConditionalNode | SwitchNode => Conditional
    case LoopNode => Loop
    case AssignmentNode => Assignment
    case CallNode => Call
    case ReturnNode => Return
    case BlockNode => Unspecified
  }

  function FreshId(counter: nat): string {
    "step-" + Padded4(counter)
  }

  /** The ID of n when the counter has been raised to counter for it. */
  function IdOf(n: Node, counter: nat): string {
    if n.id != "" then n.id else FreshId(counter)
  }

  function SpanOf(n: Node, omitRawSource: bool): SourceSpan {
    SourceSpan(ToUint32(n.startLine), ToUint32(n.endLine), ToUint32(n.startCol), ToUint32(n.endCol),
               if omitRawSource then "" else n.text)
  }

  function CallEdge(call: CallRef): StepEdge {
    StepEdge(
      if call.internalCall then call.targetNodeID else "", CallInto,
      "calls " + call.pkg + "." + call.symbol, call.internalCall,
      if call.internalCall then None else Some(ExternalCall(call.pkg, call.symbol)))
  }

  function CallEdges(calls: seq<CallRef>): seq<StepEdge> {
    if calls == [] then [] else [CallEdge(calls[0])] + CallEdges(calls[1..])
  }

  function SizeAll(ns: seq<Node>): nat {
    if ns == [] then 0 else 1 + SizeAll(ns[0].children) + SizeAll(ns[1..])
  }

  function Size(n: Node): nat {
    1 + SizeAll(n.children)
  }

  /** The edges to the children ns, built when the counter stands at c. */
  function ChildEdges(ns: seq<Node>, c: nat): seq<StepEdge> {
    if ns == [] then [] else [NextEdge(IdOf(ns[0], c + 1))] + ChildEdges(ns[1..], c + Size(ns[0]))
  }

  function RootStep(n: Node, c: nat, omit: bool): StepData {
    StepData(IdOf(n, c + 1), n.labelText, KindOf(n.kind), Some(SpanOf(n, omit)), None,
             CallEdges(n.calls) + ChildEdges(n.children, c + 1), false)
  }

  /** The steps of a forest, built when the counter stands at c: each root before its children. */
  function CompileAll(ns: seq<Node>, c: nat, omit: bool): (s: seq<StepData>)
    ensures |s| == SizeAll(ns)
  {
    if ns == [] then []
    else
      [RootStep(ns[0], c, omit)] + CompileAll(ns[0].children, c + 1, omit)
      + CompileAll(ns[1..], c + Size(ns[0]), omit)
  }

  function Compile(n: Node, c: nat, omit: bool): (s: seq<StepData>)
    ensures |s| == Size(n)
  {
    [RootStep(n, c, omit)] + CompileAll(n.children, c + 1, omit)
  }

  // ------------------------------------------------------------------ which nodes are built

  function Pick(nodes: seq<Node>, indices: seq<nat>): seq<Node>
    requires forall k :: 0 <= k < |indices| ==> indices[k] < |nodes|
  {
    seq(|indices|, k requires 0 <= k < |indices| => nodes[indices[k]])
  }

  /** The functions from position k on that the first loop of the builder builds. */
  function Entries(nodes: seq<Node>, symbol: string, k: nat): (r: seq<nat>)
    requires k <= |nodes|
    ensures forall j :: 0 <= j < |r| ==> k <= r[j] < |nodes| && nodes[r[j]].kind.FunctionNode?
    decreases |nodes| - k
  {
    if k == |nodes| then []
    else if !nodes[k].kind.FunctionNode? then Entries(nodes, symbol, k + 1)
    else if symbol == "" then [k]
    else if nodes[k].labelText == symbol then [k] + Entries(nodes, symbol, k + 1)
    else Entries(nodes, symbol, k + 1)
  }

  /** The label that the second loop skips: that of the entry step. */
  function EntryLabel(nodes: seq<Node>, symbol: string): Option<string> {
    var e := Entries(nodes, symbol, 0);
    if e == [] then None else Some(nodes[e[|e| - 1]].labelText)
  }

  /** The functions from position k on that the second loop builds. */
  function Others(nodes: seq<Node>, skip: Option<string>, k: nat): (r: seq<nat>)
    requires k <= |nodes|
    ensures forall j :: 0 <= j < |r| ==> k <= r[j] < |nodes| && nodes[r[j]].kind.FunctionNode?
    decreases |nodes| - k
  {
    if k == |nodes| then []
    else if nodes[k].kind.FunctionNode? && skip != Some(nodes[k].labelText) then
      [k] + Others(nodes, skip, k + 1)
    else Others(nodes, skip, k + 1)
  }

  /** Without an entry the first node is built as the entry, whatever its kind. */
  function Fallback(nodes: seq<Node>, symbol: string): (r: seq<nat>)
    ensures forall j :: 0 <= j < |r| ==> r[j] < |nodes|
  {
    if Entries(nodes, symbol, 0) == [] && nodes != [] then [0] else []
  }

  /** The positions of the top-level nodes, in the order in which they are built. */
  function Plan(nodes: seq<Node>, symbol: string): (r: seq<nat>)
    ensures forall j :: 0 <= j < |r| ==> r[j] < |nodes|
  {
    Entries(nodes, symbol, 0) + Others(nodes, EntryLabel(nodes, symbol), 0) + Fallback(nodes, symbol)
  }

  function BuiltSteps(nodes: seq<Node>, symbol: string, omit: bool): seq<StepData> {
    CompileAll(Pick(nodes, Plan(nodes, symbol)), 0, omit)
  }

  /** The place in the plan of the node that becomes the entry. */
  function EntryPlace(nodes: seq<Node>, symbol: string): (p: nat)
    requires nodes != []
    ensures p < |Plan(nodes, symbol)|
  {
    var e := Entries(nodes, symbol, 0);
    if e != [] then |e| - 1 else |Plan(nodes, symbol)| - 1
  }

  /** The counter after the first p planned nodes. */
  function CounterAt(nodes: seq<Node>, symbol: string, p: nat): nat
    requires p <= |Plan(nodes, symbol)|
  {
    SizeAll(Pick(nodes, Plan(nodes, symbol))[..p])
  }

  function EntryId(nodes: seq<Node>, symbol: string): string {
    if nodes == [] then ""
    else
      var p := EntryPlace(nodes, symbol);
      IdOf(nodes[Plan(nodes, symbol)[p]], CounterAt(nodes, symbol, p) + 1)
  }

  /** Adding steps to a map one after the other; a later step replaces an earlier one of its ID. */
  function Stored(m: map<string, StepData>, steps: seq<StepData>): map<string, StepData> {
    if steps == [] then m
    else Stored(m, steps[..|steps| - 1])[steps[|steps| - 1].id := steps[|steps| - 1]]
  }
}
