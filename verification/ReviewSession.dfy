/** From the forge's answer to ReviewReady: parsing the patches, ordering the files, building the
    graph and listing the steps. */
module ReviewSession {
  import opened Outcomes
  import opened StepGraph
  import opened Text
  import opened Patches
  import opened PatchTheory
  import opened Orderers
  import opened OrderTheory
  import R = ReviewGraph
  import opened ReviewTheory

  datatype GhFile = GhFile(
    filename: string, previousFilename: string, status: string, additions: int, deletions: int, patch: string)

  datatype FileError = FileError(filename: string, cause: PatchError)

  function ChangeKindOf(status: string): ChangeKind {
    if status == "added" then Added
    else if status == "removed" then Deleted
    else if status == "renamed" then Renamed
    else Modified
  }

  /** The hunks of a file; a file without a patch has none. */
  function HunksOf(f: GhFile): Result<seq<Hunk>, PatchError> {
    if f.patch == "" then Ok([]) else ParsePatch(f.patch)
  }

  function WithHunks(f: GhFile, hunks: seq<Hunk>): ReviewFile {
    ReviewFile(f.filename, f.previousFilename, ChangeKindOf(f.status), f.additions, f.deletions, hunks)
  }

  /** files answers for gh: one file each, in order, with the hunks of its patch. */
  ghost predicate Converted(gh: seq<GhFile>, files: seq<ReviewFile>) {
    && |files| == |gh|
    && forall i :: 0 <= i < |gh| ==> HunksOf(gh[i]).Ok? && files[i] == WithHunks(gh[i], HunksOf(gh[i]).value)
  }

  /** File k is the first whose patch cannot be read. */
  ghost predicate FirstFailure(gh: seq<GhFile>, k: nat, e: FileError) {
    && k < |gh| && HunksOf(gh[k]).Err? && e == FileError(gh[k].filename, HunksOf(gh[k]).error)
    && forall i :: 0 <= i < k ==> HunksOf(gh[i]).Ok?
  }

  method GhFilesToReviewFiles(gh: seq<GhFile>) returns (r: Result<seq<ReviewFile>, FileError>)
    ensures r.Ok? ==> Converted(gh, r.value)
    ensures r.Err? ==> exists k :: FirstFailure(gh, k, r.error)
  {
    hide ParsePatch;
    var result := [];
    for i := 0 to |gh|
      invariant Converted(gh[..i], result)
    {
      var f := gh[i];
      var hunks := [];
      if f.patch != "" {
        var parsed := ParseHunks(f.patch);
        if parsed.Err? {
          assert forall k :: 0 <= k < i ==> gh[k] == gh[..i][k];
          assert FirstFailure(gh, i, FileError(f.filename, parsed.error));
          return Err(FileError(f.filename, parsed.error));
        }
        hunks := parsed.value;
      }
      assert gh[..i + 1] == gh[..i] + [f];
      result := result + [WithHunks(f, hunks)];
    }
    assert gh[..|gh|] == gh;
    r := Ok(result);
  }

  datatype Ready = Ready(
    graph: Graph, files: seq<ReviewFile>, fileEntries: map<string, string>, steps: seq<StepData>,
    totalSteps: nat, entryStepId: string)

  /** The part of OpenReviewSession between the fetch and the last event. */
  method OpenReview(gh: seq<GhFile>, o: Orderer, src: R.Sources) returns (r: Result<Ready, FileError>)
    ensures r.Ok? <==> forall i :: 0 <= i < |gh| ==> HunksOf(gh[i]).Ok?
    ensures r.Err? ==> exists k :: FirstFailure(gh, k, r.error)
    ensures r.Ok? ==> exists files :: Converted(gh, files) && r.value.files == Sort(o, files)
    ensures r.Ok? ==>
      var ps := R.Flat(r.value.files);
      && fresh(r.value.graph) && r.value.graph.Valid() && r.value.graph.View() == R.GraphOf(ps, src)
      && r.value.fileEntries == R.FileEntries(ps)
      && r.value.steps == R.WireSteps(R.GraphOf(ps, src), R.IdsOf(ps))
      && r.value.totalSteps == ToUint32(|R.GraphOf(ps, src)|) && r.value.entryStepId == R.EntryOf(ps)
  {
    hide *;
    var parsed := GhFilesToReviewFiles(gh);
    if parsed.Err? {
      FailureNotOk(gh, parsed.error);
      return Err(parsed.error);
    }
    var files := parsed.value;
    var fetched := new ReviewFile[|files|](i requires 0 <= i < |files| => files[i]);
    assert fetched[..] == files;
    var ordered := Order(o, fetched);
    var g, fileEntries, orderedIds := R.BuildHunkGraph(ordered[..], src);
    var steps := R.ProtoReviewSteps(g, orderedIds);
    ConvertedOk(gh, files);
    StepCount(g);
    r := Ok(Ready(g, ordered[..], fileEntries, steps, ToUint32(g.Len()), g.entryID));
  }

  lemma FailureNotOk(gh: seq<GhFile>, e: FileError)
    requires exists k :: FirstFailure(gh, k, e)
    ensures !forall i :: 0 <= i < |gh| ==> HunksOf(gh[i]).Ok?
  {
    hide HunksOf;
  }

  lemma ConvertedOk(gh: seq<GhFile>, files: seq<ReviewFile>)
    requires Converted(gh, files)
    ensures forall i :: 0 <= i < |gh| ==> HunksOf(gh[i]).Ok?
  {
    hide HunksOf;
  }

  lemma StepCount(g: Graph)
    ensures g.Len() == |g.View()|
  {
    assert g.View().Keys == g.steps.Keys && |g.View().Keys| == |g.View()|;
  }

  // ------------------------------------------------------------------ a printed review

  /** A file of a review before it is printed as a patch. */
  datatype Source = Source(path: string, status: string, preface: seq<string>, hunks: seq<Printed>)

  ghost predicate Printable(s: Source) {
    && AllPrintable(s.hunks) && AreLines(s.preface) && NoHeads(s.preface)
    && forall a, b :: 0 <= a < b < |s.hunks| ==> s.hunks[a].newRange.start < s.hunks[b].newRange.start
  }

  function Printing(s: Source): GhFile {
    GhFile(s.path, "", s.status, 0, 0, Join(s.preface + PrintedLines(s.hunks)))
  }

  lemma {:induction false} ExpectedAt(ps: seq<Printed>)
    ensures |AllExpected(ps)| == |ps|
    ensures forall i :: 0 <= i < |ps| ==> AllExpected(ps)[i] == Expected(ps[i])
  {
    hide Expected;
    if ps == [] {
    } else {
      ExpectedAt(ps[1..]);
    }
  }

  lemma PrintingReadBack(s: Source)
    requires Printable(s)
    ensures HunksOf(Printing(s)) == Ok(AllExpected(s.hunks))
    ensures Ascending(WithHunks(Printing(s), AllExpected(s.hunks)))
  {
    hide ParsePatch, HeadLine, IsHead, Unlines;
    ExpectedAt(s.hunks);
    var lines := s.preface + PrintedLines(s.hunks);
    if lines != [] {
      PrintedReadBack(s.preface, s.hunks);
    }
    if Printing(s).patch == "" {
      EmptyPatch(lines, s);
    }
  }

  lemma EmptyPatch(lines: seq<string>, s: Source)
    requires lines == s.preface + PrintedLines(s.hunks) && Join(lines) == ""
    ensures s.hunks == []
  {
    if s.hunks != [] {
      var n := |s.preface|;
      assert lines[n] == HeadLine(s.hunks[0]) != "";
      JoinNotEmpty(lines, n);
    }
  }

  lemma {:induction false} JoinNotEmpty(lines: seq<string>, k: nat)
    requires k < |lines| && lines[k] != ""
    ensures Join(lines) != ""
  {
    if k == 0 {
    } else {
      assert |lines| > 1;
    }
  }

  /** The whole pipeline: print the hunks of files with distinct paths, in any file order, open the
      review, and Forward visits exactly those hunks, in the order of the orderer. The steps on the
      wire carry the printed ranges and texts, each of those of some hunk, and every hunk is there. */
  lemma PrintedReviewOrder(sources: seq<Source>, o: Orderer, files: seq<ReviewFile>, src: R.Sources, visited: set<string>)
    requires forall i :: 0 <= i < |sources| ==> Printable(sources[i])
    requires forall i, j :: 0 <= i < j < |sources| ==> sources[i].path != sources[j].path
    requires Converted(seq(|sources|, i requires 0 <= i < |sources| => Printing(sources[i])), files)
    ensures |files| == |sources| && DistinctPaths(files) && AllAscending(files)
    ensures forall i :: 0 <= i < |sources| ==>
      files[i].path == sources[i].path && files[i].hunks == AllExpected(sources[i].hunks)
    ensures
      var ps := R.Flat(Sort(o, files));
      ps != [] ==> VisitsInOrder(EdgesOf(R.GraphOf(ps, src)), R.IdsOf(ps), visited)
    ensures
      var ps := R.Flat(Sort(o, files));
      var wire := R.WireSteps(R.GraphOf(ps, src), R.IdsOf(ps));
      && (forall k :: 0 <= k < |wire| ==> FromSource(wire[k], sources, src.omitRaw))
      && (forall i, j :: 0 <= i < |sources| && 0 <= j < |sources[i].hunks| ==> OnWire(wire, sources[i], j, src.omitRaw))
  {
    hide R.WireSteps, FromSource, OnWire;
    hide HunksOf, AllExpected, Printable, Join, PrintedLines, Sort, R.Flat, R.GraphOf, R.IdsOf, VisitsInOrder, Ascending;
    forall i | 0 <= i < |sources|
      ensures files[i].path == sources[i].path && files[i].hunks == AllExpected(sources[i].hunks) && Ascending(files[i])
    {
      PrintingReadBack(sources[i]);
    }
    PipelineOrder(o, files, src, visited);
    PrintedShown(sources, o, files, src);
  }

  /** The step carries the j-th hunk of the source as it was printed. */
  ghost predicate ShowsPrinted(s: StepData, source: Source, j: nat, omitRaw: bool) {
    && j < |source.hunks| && s.hunkSpan.Some?
    && var span, h := s.hunkSpan.value, source.hunks[j];
       && span.filePath == source.path
       && Field32(span.oldStart, h.oldRange.start) && Field32(span.oldLines, h.oldRange.count)
       && Field32(span.newStart, h.newRange.start) && Field32(span.newLines, h.newRange.count)
       && span.rawDiff == if omitRaw then "" else Unlines(BlockOf(h))
  }

  /** Step k carries some printed hunk. */
  ghost predicate FromSource(s: StepData, sources: seq<Source>, omitRaw: bool) {
    exists i, j :: 0 <= i < |sources| && 0 <= j < |sources[i].hunks| && ShowsPrinted(s, sources[i], j, omitRaw)
  }

  /** Some step carries hunk j of the source. */
  ghost predicate OnWire(steps: seq<StepData>, source: Source, j: nat, omitRaw: bool) {
    exists k :: 0 <= k < |steps| && ShowsPrinted(steps[k], source, j, omitRaw)
  }

  lemma {:induction false} PrintedShown(sources: seq<Source>, o: Orderer, files: seq<ReviewFile>, src: R.Sources)
    requires |files| == |sources| && DistinctPaths(files) && AllAscending(files)
    requires forall i :: 0 <= i < |sources| ==>
      files[i].path == sources[i].path && files[i].hunks == AllExpected(sources[i].hunks)
    ensures
      var ps := R.Flat(Sort(o, files));
      var wire := R.WireSteps(R.GraphOf(ps, src), R.IdsOf(ps));
      && (forall k :: 0 <= k < |wire| ==> FromSource(wire[k], sources, src.omitRaw))
      && (forall i, j :: 0 <= i < |sources| && 0 <= j < |sources[i].hunks| ==> OnWire(wire, sources[i], j, src.omitRaw))
  {
    hide *;
    var s := Sort(o, files);
    var ps := R.Flat(s);
    var wire := R.WireSteps(R.GraphOf(ps, src), R.IdsOf(ps));
    SortKeepsFiles(o, files);
    AscendingPlaces(s);
    WireLength(ps, src);
    forall k | 0 <= k < |wire|
      ensures FromSource(wire[k], sources, src.omitRaw)
    {
      var f, j := PlacedFrom(s, k);
      SortMembers(o, files, f);
      var i :| 0 <= i < |files| && files[i] == f;
      HunkShown(ps, src, k, sources[i], f, j);
      FromSourceAt(wire[k], sources, i, j, src.omitRaw);
    }
    forall i, j | 0 <= i < |sources| && 0 <= j < |sources[i].hunks|
      ensures OnWire(wire, sources[i], j, src.omitRaw)
    {
      SortMembers(o, files, files[i]);
      ExpectedAt(sources[i].hunks);
      var k := PlaceOfHunk(s, files[i], j);
      HunkShown(ps, src, k, sources[i], files[i], j);
      OnWireAt(wire, k, sources[i], j, src.omitRaw);
    }
  }

  lemma FromSourceAt(s: StepData, sources: seq<Source>, i: nat, j: nat, omitRaw: bool)
    requires i < |sources| && j < |sources[i].hunks| && ShowsPrinted(s, sources[i], j, omitRaw)
    ensures FromSource(s, sources, omitRaw)
  {
  }

  lemma OnWireAt(steps: seq<StepData>, k: nat, source: Source, j: nat, omitRaw: bool)
    requires k < |steps| && ShowsPrinted(steps[k], source, j, omitRaw)
    ensures OnWire(steps, source, j, omitRaw)
  {
  }

  lemma SortMembers(o: Orderer, files: seq<ReviewFile>, f: ReviewFile)
    ensures f in Sort(o, files) <==> f in files
  {
    hide Sort, Sorted;
    SortIsSorted(o, files);
    assert f in multiset(Sort(o, files)) <==> f in multiset(files);
  }

  lemma WireLength(ps: seq<Placed>, src: R.Sources)
    ensures |R.WireSteps(R.GraphOf(ps, src), R.IdsOf(ps))| == |ps|
  {
    hide R.WireSteps, R.GraphOf, R.IdOf;
    WireStored(ps, src);
  }

  lemma {:induction false} PlacedFrom(files: seq<ReviewFile>, k: nat) returns (f: ReviewFile, j: nat)
    requires k < |R.Flat(files)|
    ensures f in files && j < |f.hunks| && R.Flat(files)[k] == R.Placed(f.path, f.hunks[j])
  {
    var n := |files| - 1;
    var front := R.Flat(files[..n]);
    if k < |front| {
      f, j := PlacedFrom(files[..n], k);
    } else {
      f, j := files[n], k - |front|;
    }
  }

  lemma PlaceOfHunk(files: seq<ReviewFile>, f: ReviewFile, j: nat) returns (k: nat)
    requires f in files && j < |f.hunks|
    ensures k < |R.Flat(files)| && R.Flat(files)[k] == R.Placed(f.path, f.hunks[j])
  {
    var i :| 0 <= i < |files| && files[i] == f;
    hide R.Flat, R.Places;
    FlatAt(files, i);
    k := Offset(files, i) + j;
    PlaceIn(f.path, f.hunks, j);
    assert R.Flat(files)[Offset(files, i)..Offset(files, i) + |f.hunks|][j] == R.Flat(files)[k];
  }

  lemma PlaceIn(path: string, hunks: seq<Hunk>, j: nat)
    requires j < |hunks|
    ensures |R.Places(path, hunks)| == |hunks| && R.Places(path, hunks)[j] == R.Placed(path, hunks[j])
  {
  }

  lemma HunkShown(ps: seq<Placed>, src: R.Sources, k: nat, source: Source, f: ReviewFile, j: nat)
    requires DistinctPlaces(ps) && k < |ps| && j < |f.hunks| && ps[k] == R.Placed(f.path, f.hunks[j])
    requires f.path == source.path && f.hunks == AllExpected(source.hunks)
    ensures
      var wire := R.WireSteps(R.GraphOf(ps, src), R.IdsOf(ps));
      k < |wire| && j < |source.hunks| && ShowsPrinted(wire[k], source, j, src.omitRaw)
  {
    hide R.WireSteps, R.GraphOf, R.IdOf, Field32, DistinctPlaces, BlockOf, Unlines;
    HunkOnWire(ps, src, k);
    ExpectedAt(source.hunks);
  }

  // ------------------------------------------------------------------ what a converted file carries

  /** Field by field, what the forge said of the file, and the hunks of its patch. */
  lemma ConvertedFields(gh: seq<GhFile>, files: seq<ReviewFile>, i: nat)
    requires Converted(gh, files) && i < |gh|
    ensures
      var g, f := gh[i], files[i];
      && f.path == g.filename && f.oldPath == g.previousFilename
      && f.linesAdded == g.additions && f.linesRemoved == g.deletions
      && (f.change == Added <==> g.status == "added") && (f.change == Deleted <==> g.status == "removed")
      && (f.change == Renamed <==> g.status == "renamed")
      && (g.patch == "" ==> f.hunks == []) && (g.patch != "" ==> ParsePatch(g.patch) == Ok(f.hunks))
  {
    hide ParsePatch;
    var literals := ["added", "removed", "renamed"];
    assert |literals[0]| == 5 && |literals[1]| == 7 && |literals[2]| == 7 && literals[1][2] != literals[2][2];
  }
}
