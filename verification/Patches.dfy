/** Parsing of unified-diff patches into hunks. */
module Patches {
  import opened Outcomes
  import opened Text
  import opened Decimals

  datatype Range = Range(start: int, count: int)

  datatype Hunk = Hunk(oldRange: Range, newRange: Range, rawDiff: string)

  datatype PatchError =
    | MalformedHeader(line: string)
    | NoClosingMark(line: string)
    | MissingRanges(line: string)
    | BadOldRange(line: string)
    | BadNewRange(line: string)

  predicate IsHead(line: string) {
    HasPrefix(line, "@@")
  }

  /** One range, such as "-3,5" or "+3"; a missing count means 1. The program drops the first byte
      of s; when that is only the first byte of a longer character, the rest is no number. */
  function ParseRange(s: string): Option<Range>
    requires s != []
  {
    var t := s[1..];
    var comma := Until(t, ',');
    if s[0] >= '\U{80}' then None
    else if comma < |t| then
      match (Atoi(t[..comma]), Atoi(t[comma + 1..]))
      case (Some(start), Some(count)) => Some(Range(start, count))
      case _ => None
    else
      match Atoi(t)
      case Some(start) => Some(Range(start, 1))
      case None => None
  }

  /** The ranges of the header line "@@ -a,b +c,d @@ heading". */
  function ParseHeader(line: string): Result<(Range, Range), PatchError> {
    if !HasPrefix(line, "@@ ") then Err(MalformedHeader(line))
    else
      var rest := line[3..];
      match Index(rest, " @@")
      case None => Err(NoClosingMark(line))
      case Some(end) =>
        var fields := Fields(rest[..end]);
        if |fields| < 2 then Err(MissingRanges(line))
        else
          match ParseRange(fields[0])
          case None => Err(BadOldRange(line))
          case Some(oldRange) =>
            match ParseRange(fields[1])
            case None => Err(BadNewRange(line))
            case Some(newRange) => Ok((oldRange, newRange))
  }

  /** The number of lines before the first hunk header. */
  function Preamble(lines: seq<string>): (n: nat)
    ensures n <= |lines|
  {
    if lines == [] || IsHead(lines[0]) then 0 else 1 + Preamble(lines[1..])
  }

  lemma {:induction false} PreambleFacts(lines: seq<string>)
    ensures forall k :: 0 <= k < Preamble(lines) ==> !IsHead(lines[k])
    ensures Preamble(lines) < |lines| ==> IsHead(lines[Preamble(lines)])
  {
    if lines != [] && !IsHead(lines[0]) {
      PreambleFacts(lines[1..]);
      assert forall k :: 1 <= k < |lines| ==> lines[k] == lines[1..][k - 1];
    }
  }

  /** The lines of each hunk: its header and what follows up to the next header. */
  function Blocks(lines: seq<string>): seq<seq<string>>
    decreases |lines|
  {
    var p := Preamble(lines);
    if p == |lines| then []
    else
      var q := p + 1 + Preamble(lines[p + 1..]);
      [lines[p..q]] + Blocks(lines[q..])
  }

  function HunkOf(block: seq<string>): Result<Hunk, PatchError>
    requires block != []
  {
    match ParseHeader(block[0])
    case Ok((oldRange, newRange)) => Ok(Hunk(oldRange, newRange, Unlines(block)))
    case Err(e) => Err(e)
  }

  /** Puts the hunks already finished in front of what the rest of a patch gives. */
  function After(done: seq<Hunk>, rest: Result<seq<Hunk>, PatchError>): Result<seq<Hunk>, PatchError> {
    match rest
    case Ok(hunks) => Ok(done + hunks)
    case Err(e) => Err(e)
  }

  /** The hunks of the blocks, or the error of the first header that cannot be read. */
  function Hunks(blocks: seq<seq<string>>): Result<seq<Hunk>, PatchError>
  {
    if blocks == [] then Ok([])
    else if blocks[0] == [] then Hunks(blocks[1..])
    else
      match HunkOf(blocks[0])
      case Ok(h) => After([h], Hunks(blocks[1..]))
      case Err(e) => Err(e)
  }

  function ParsePatch(patch: string): Result<seq<Hunk>, PatchError> {
    Hunks(Blocks(Split(patch)))
  }

  function Grow(current: Option<Hunk>, text: string): Option<Hunk> {
    if current.None? then None else Some(current.value.(rawDiff := current.value.rawDiff + text))
  }

  function Close(done: seq<Hunk>, current: Option<Hunk>): seq<Hunk> {
    if current.None? then done else done + [current.value]
  }

  /** What the loop of ParseHunks still makes of the remaining lines. */
  ghost function Remaining(done: seq<Hunk>, current: Option<Hunk>, lines: seq<string>): Result<seq<Hunk>, PatchError> {
    if current.None? then After(done, Hunks(Blocks(lines)))
    else
      var n := Preamble(lines);
      After(Close(done, Grow(current, Unlines(lines[..n]))), Hunks(Blocks(lines[n..])))
  }

  /** What it makes of them when they begin with a header. */
  ghost function Opened(done: seq<Hunk>, current: Option<Hunk>, lines: seq<string>): Result<seq<Hunk>, PatchError>
    requires lines != []
  {
    match ParseHeader(lines[0])
    case Ok((a, b)) => Remaining(Close(done, current), Some(Hunk(a, b, lines[0] + "\n")), lines[1..])
    case Err(e) => Err(e)
  }

  method ParseHunks(patch: string) returns (r: Result<seq<Hunk>, PatchError>)
    ensures r == ParsePatch(patch)
  {
    hide ParseHeader, Remaining, Blocks, Hunks;
    var hunks, current: Option<Hunk> := [], None;
    var lines := Split(patch);
    assert lines[0..] == lines;
    RemainingStart(lines);
    for i := 0 to |lines|
      invariant Remaining(hunks, current, lines[i..]) == ParsePatch(patch)
    {
      var line := lines[i];
      RemainingStep(hunks, current, lines[i..]);
      assert lines[i..][1..] == lines[i + 1..];
      if HasPrefix(line, "@@") {
        if current.Some? {
          hunks := hunks + [current.value];
        }
        var header := ParseHeader(line);
        if header.Err? {
          return Err(header.error);
        }
        current := Some(Hunk(header.value.0, header.value.1, line + "\n"));
      } else if current.Some? {
        current := Some(current.value.(rawDiff := current.value.rawDiff + (line + "\n")));
      }
    }
    RemainingEnd(hunks, current);
    if current.Some? {
      hunks := hunks + [current.value];
    }
    r := Ok(hunks);
  }

  /** One line of the loop. */
  lemma RemainingStep(done: seq<Hunk>, current: Option<Hunk>, lines: seq<string>)
    requires lines != []
    ensures IsHead(lines[0]) ==> Remaining(done, current, lines) == Opened(done, current, lines)
    ensures !IsHead(lines[0]) ==>
      Remaining(done, current, lines) == Remaining(done, Grow(current, lines[0] + "\n"), lines[1..])
  {
    if IsHead(lines[0]) {
      HeadStep(done, current, lines);
    } else {
      BodyStep(done, current, lines);
    }
  }

  lemma RemainingStart(lines: seq<string>)
    ensures Remaining([], None, lines) == Hunks(Blocks(lines))
  {
    hide Hunks, Blocks;
    AfterNothing(Hunks(Blocks(lines)));
  }

  lemma RemainingEnd(done: seq<Hunk>, current: Option<Hunk>)
    ensures Remaining(done, current, []) == Ok(Close(done, current))
  {
    GrowByNothing(current);
    NoBlocks([]);
    assert Close(done, current) + [] == Close(done, current);
  }

  lemma HeadStep(done: seq<Hunk>, current: Option<Hunk>, lines: seq<string>)
    requires lines != [] && IsHead(lines[0])
    ensures Remaining(done, current, lines) == Opened(done, current, lines)
  {
    hide ParseHeader, IsHead, Preamble, Blocks;
    var q := Preamble(lines[1..]);
    PreambleStep(lines);
    assert lines[0..] == lines && lines[..0] == [];
    FirstBlock(lines, 0, q);
    assert lines[1..][q..] == lines[1 + q..] && lines[..1 + q][1..] == lines[1..][..q];
    assert Unlines(lines[..1 + q]) == lines[0] + "\n" + Unlines(lines[1..][..q]);
    GrowByNothing(current);
    assert Remaining(done, current, lines) == After(Close(done, current), Hunks(Blocks(lines)));
    AfterSnoc(Close(done, current), lines[..1 + q], Blocks(lines[1 + q..]));
  }

  lemma AfterSnoc(done: seq<Hunk>, block: seq<string>, blocks: seq<seq<string>>)
    requires block != []
    ensures HunkOf(block).Ok? ==> After(done, Hunks([block] + blocks)) == After(done + [HunkOf(block).value], Hunks(blocks))
    ensures HunkOf(block).Err? ==> After(done, Hunks([block] + blocks)) == Err(HunkOf(block).error)
  {
    hide HunkOf;
    assert ([block] + blocks)[1..] == blocks;
    if HunkOf(block).Ok? && Hunks(blocks).Ok? {
      assert done + ([HunkOf(block).value] + Hunks(blocks).value) == done + [HunkOf(block).value] + Hunks(blocks).value;
    }
  }

  lemma BodyStep(done: seq<Hunk>, current: Option<Hunk>, lines: seq<string>)
    requires lines != [] && !IsHead(lines[0])
    ensures Remaining(done, current, lines) == Remaining(done, Grow(current, lines[0] + "\n"), lines[1..])
  {
    hide HunkOf, IsHead, Preamble, Blocks;
    var n := Preamble(lines[1..]);
    PreambleStep(lines);
    assert lines[1..][n..] == lines[n + 1..];
    if current.Some? {
      assert lines[..n + 1][1..] == lines[1..][..n];
      var raw, rest := current.value.rawDiff, Unlines(lines[1..][..n]);
      assert Unlines(lines[..n + 1]) == lines[0] + "\n" + rest;
      assert raw + (lines[0] + "\n" + rest) == raw + (lines[0] + "\n") + rest;
    } else {
      BlocksDrop(lines);
    }
  }

  lemma AfterNothing(r: Result<seq<Hunk>, PatchError>)
    ensures After([], r) == r
  {
    assert r.Ok? ==> [] + r.value == r.value;
  }

  lemma GrowByNothing(current: Option<Hunk>)
    ensures Grow(current, "") == current
  {
    assert current.Some? ==> current.value.rawDiff + "" == current.value.rawDiff;
  }

  /** The first block, p lines down, has q lines after its header. */
  lemma FirstBlock(lines: seq<string>, p: nat, q: nat)
    requires p == Preamble(lines) < |lines| && q == Preamble(lines[p + 1..])
    ensures Blocks(lines) == [lines[p..p + 1 + q]] + Blocks(lines[p + 1 + q..])
  {
    hide Preamble, IsHead;
  }

  lemma PreambleStep(lines: seq<string>)
    requires lines != []
    ensures Preamble(lines) == if IsHead(lines[0]) then 0 else 1 + Preamble(lines[1..])
  {
    hide IsHead;
  }

  lemma NoBlocks(lines: seq<string>)
    requires Preamble(lines) == |lines|
    ensures Blocks(lines) == []
  {
    hide Preamble, IsHead;
  }

  lemma BlocksDrop(lines: seq<string>)
    requires lines != [] && !IsHead(lines[0])
    ensures Blocks(lines) == Blocks(lines[1..])
  {
    hide Blocks, IsHead, Preamble;
    var r := lines[1..];
    var n := Preamble(r);
    PreambleStep(lines);
    if n == |r| {
      NoBlocks(lines);
      NoBlocks(r);
    } else {
      assert r[n + 1..] == lines[n + 2..];
      var q := Preamble(r[n + 1..]);
      FirstBlock(r, n, q);
      FirstBlock(lines, n + 1, q);
      assert r[n..n + 1 + q] == lines[n + 1..n + 2 + q];
      assert r[n + 1 + q..] == lines[n + 2 + q..];
    }
  }
}
