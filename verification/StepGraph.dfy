/** The step graph of one session: steps by ID, each with its labelled out-edges.
    Steps are heap objects, as in the program: a step keeps its identity while edges
    are appended to it and while the walker marks it visited. */
module StepGraph {
  import opened Outcomes

  datatype EdgeLabel =
    | Unlabelled | Next | TrueBranch | FalseBranch | Case | LoopBody | LoopExit | Exception | CallInto

  datatype StepKind =
    | Unspecified | Entry | Assignment | Conditional | Loop | Call | Return | ErrorHandle | Exit | HunkStep

  datatype ExternalCall = ExternalCall(packageName: string, symbolName: string)

  datatype StepEdge = StepEdge(
    targetStepId: string, edgeLabel: EdgeLabel, description: string, navigable: bool,
    external: Option<ExternalCall>)

  datatype SourceSpan = SourceSpan(
    startLine: nat, endLine: nat, startColumn: nat, endColumn: nat, rawSource: string)

  datatype HunkSpan = HunkSpan(
    filePath: string, oldStart: nat, oldLines: nat, newStart: nat, newLines: nat,
    rawDiff: string, contextBefore: string, contextAfter: string)

  /** The value of a step at one moment. */
  datatype StepData = StepData(
    id: string, labelText: string, kind: StepKind, source: Option<SourceSpan>,
    hunkSpan: Option<HunkSpan>, edges: seq<StepEdge>, visited: bool)

  /** What navigation and cycle detection see of a graph: the out-edges of every step. */
  type Adjacency = map<string, seq<StepEdge>>

  function EdgesOf(view: map<string, StepData>): Adjacency {
    map id | id in view :: view[id].edges
  }

  function NextEdge(target: string): StepEdge {
    StepEdge(target, Next, "", true, None)
  }

  /** Conversion to the 32-bit unsigned fields of the wire records. */
  function ToUint32(x: int): nat {
    x % 0x1_0000_0000
  }

  /** A number that fits is kept, any other one is taken modulo two to the 32. */
  lemma Uint32Keeps(x: int)
    ensures ToUint32(x) < 0x1_0000_0000 && (0 <= x < 0x1_0000_0000 ==> ToUint32(x) == x)
    ensures exists q :: x == ToUint32(x) + q * 0x1_0000_0000
  {
    assert x == ToUint32(x) + (x / 0x1_0000_0000) * 0x1_0000_0000;
  }

  class Step {
    const id: string
    const labelText: string
    const kind: StepKind
    const source: Option<SourceSpan>
    const hunkSpan: Option<HunkSpan>
    var edges: seq<StepEdge>
    var visited: bool

    constructor (id: string, labelText: string, kind: StepKind,
                 source: Option<SourceSpan>, hunkSpan: Option<HunkSpan>)
      ensures Data() == StepData(id, labelText, kind, source, hunkSpan, [], false)
    {
      this.id, this.labelText, this.kind, this.source, this.hunkSpan := id, labelText, kind, source, hunkSpan;
      this.edges, this.visited := [], false;
    }

    function Data(): StepData
      reads this
    {
      StepData(id, labelText, kind, source, hunkSpan, edges, visited)
    }
  }

  class Graph {
    var steps: map<string, Step>
    var entryID: string

    /** Only Add writes the map, so a step is always stored under its own ID. */
    ghost predicate Valid()
      reads this
    {
      forall id <- steps :: steps[id].id == id
    }

    ghost function View(): map<string, StepData>
      reads this, steps.Values
    {
      map id | id in steps :: steps[id].Data()
    }

    ghost function Arcs(): Adjacency
      reads this, steps.Values
    {
      map id | id in steps :: steps[id].edges
    }

    ghost function VisitedIds(): set<string>
      reads this, steps.Values
    {
      set id | id in steps && steps[id].visited
    }

    constructor ()
      ensures steps == map[] && entryID == "" && Valid()
    {
      steps, entryID := map[], "";
    }

    /** Inserts a step, replacing any step with the same ID. */
    method Add(s: Step)
      requires Valid()
      modifies this`steps
      ensures steps == old(steps)[s.id := s]
      ensures Valid()
    {
      steps := steps[s.id := s];
    }

    function StepAt(id: string): Option<Step>
      reads this
    {
      if id in steps then Some(steps[id]) else None
    }

    function Len(): nat
      reads this
    {
      |steps|
    }
  }
}
