/** What parsing a patch keeps, when it succeeds, and that it reads back what is printed. */
module PatchTheory {
  import opened Outcomes
  import opened Text
  import opened Decimals
  import opened Patches

  // ------------------------------------------------------------------ blocks

  function HeadCount(lines: seq<string>): nat {
    if lines == [] then 0 else (if IsHead(lines[0]) then 1 else 0) + HeadCount(lines[1..])
  }

  function Flatten(blocks: seq<seq<string>>): seq<string> {
    if blocks == [] then [] else blocks[0] + Flatten(blocks[1..])
  }

  /** A header and no further header. */
  ghost predicate IsBlock(block: seq<string>) {
    block != [] && IsHead(block[0]) && NoHeads(block[1..])
  }

  predicate NoHeads(lines: seq<string>) {
    forall k :: 0 <= k < |lines| ==> !IsHead(lines[k])
  }

  ghost predicate AreBlocks(blocks: seq<seq<string>>) {
    forall i :: 0 <= i < |blocks| ==> IsBlock(blocks[i])
  }

  lemma {:induction false} NoHeadsCount(lines: seq<string>)
    ensures NoHeads(lines) ==> HeadCount(lines) == 0 && Preamble(lines) == |lines|
  {
    if lines != [] && NoHeads(lines) {
      assert forall k :: 0 <= k < |lines| - 1 ==> lines[1..][k] == lines[k + 1];
      NoHeadsCount(lines[1..]);
      PreambleStep(lines);
    }
  }

  lemma {:induction false} HeadCountConcat(a: seq<string>, b: seq<string>)
    ensures HeadCount(a + b) == HeadCount(a) + HeadCount(b)
  {
    hide IsHead;
    if a == [] {
      assert a + b == b;
    } else {
      assert (a + b)[1..] == a[1..] + b;
      HeadCountConcat(a[1..], b);
    }
  }

  lemma BeforePreamble(lines: seq<string>)
    ensures NoHeads(lines[..Preamble(lines)])
  {
    PreambleFacts(lines);
  }

  /** The blocks are the lines from the first header on, cut before every header. */
  lemma {:induction false} BlocksFacts(lines: seq<string>)
    decreases |lines|
    ensures Flatten(Blocks(lines)) == lines[Preamble(lines)..]
    ensures AreBlocks(Blocks(lines)) && |Blocks(lines)| == HeadCount(lines)
  {
    hide IsHead, Preamble, Blocks, NoHeads, IsBlock, HeadCount;
    var p := Preamble(lines);
    BeforePreamble(lines);
    NoHeadsCount(lines[..p]);
    assert lines == lines[..p] + lines[p..];
    HeadCountConcat(lines[..p], lines[p..]);
    if p == |lines| {
      NoBlocks(lines);
      assert lines[p..] == [] && lines[..p] == lines;
    } else {
      var q := Preamble(lines[p + 1..]);
      var block, rest := lines[p..p + 1 + q], lines[p + 1 + q..];
      FirstBlock(lines, p, q);
      FirstIsBlock(lines, p, q);
      BlocksFacts(rest);
      assert ([block] + Blocks(rest))[1..] == Blocks(rest);
      assert block + rest == lines[p..];
      HeadCountConcat(block, rest);
    }
  }

  lemma FirstIsBlock(lines: seq<string>, p: nat, q: nat)
    requires p == Preamble(lines) < |lines| && q == Preamble(lines[p + 1..])
    ensures IsBlock(lines[p..p + 1 + q]) && HeadCount(lines[p..p + 1 + q]) == 1
    ensures Preamble(lines[p + 1 + q..]) == 0
  {
    hide IsHead, Preamble, NoHeads;
    PreambleFacts(lines);
    BeforePreamble(lines[p + 1..]);
    var block := lines[p..p + 1 + q];
    assert block[1..] == lines[p + 1..][..q];
    NoHeadsCount(block[1..]);
    RestStartsWithHead(lines[p + 1..], q);
    assert lines[p + 1..][q..] == lines[p + 1 + q..];
  }

  lemma RestStartsWithHead(lines: seq<string>, q: nat)
    requires q == Preamble(lines)
    ensures Preamble(lines[q..]) == 0
  {
    PreambleFacts(lines);
    if q < |lines| {
      PreambleStep(lines[q..]);
    }
  }

  // ------------------------------------------------------------------ when a patch parses

  ghost predicate HeadersParse(lines: seq<string>) {
    forall k :: 0 <= k < |lines| && IsHead(lines[k]) ==> ParseHeader(lines[k]).Ok?
  }

  /** Line k is the first header that cannot be read, for the reason e. */
  ghost predicate FirstBad(lines: seq<string>, k: nat, e: PatchError) {
    && k < |lines| && IsHead(lines[k]) && ParseHeader(lines[k]) == Err(e)
    && HeadersParse(lines[..k])
  }

  /** A patch parses if and only if every header line does; otherwise the answer is the error of
      the first header that does not. */
  lemma {:induction false} HunksFollowHeaders(blocks: seq<seq<string>>)
    requires AreBlocks(blocks)
    ensures Hunks(blocks).Ok? <==> HeadersParse(Flatten(blocks))
    ensures Hunks(blocks).Err? ==> exists k :: FirstBad(Flatten(blocks), k, Hunks(blocks).error)
  {
    hide ParseHeader, IsHead;
    if blocks == [] {
    } else {
      var block, lines := blocks[0], Flatten(blocks[1..]);
      HunksFollowHeaders(blocks[1..]);
      assert forall k :: 1 <= k < |block| ==> block[k] == block[1..][k - 1];
      if ParseHeader(block[0]).Err? {
        assert (block + lines)[0] == block[0];
        assert FirstBad(block + lines, 0, ParseHeader(block[0]).error);
      } else {
        HeadersConcat(block, lines);
        if Hunks(blocks[1..]).Err? {
          var k: nat :| FirstBad(lines, k, Hunks(blocks[1..]).error);
          assert (block + lines)[..|block| + k] == block + lines[..k];
          HeadersConcat(block, lines[..k]);
          assert FirstBad(block + lines, |block| + k, Hunks(blocks).error);
        }
      }
    }
  }

  lemma HeadersConcat(a: seq<string>, b: seq<string>)
    ensures HeadersParse(a + b) <==> HeadersParse(a) && HeadersParse(b)
  {
    hide ParseHeader, IsHead;
    assert forall k :: 0 <= k < |b| ==> b[k] == (a + b)[|a| + k];
    assert forall k :: 0 <= k < |a| ==> a[k] == (a + b)[k];
  }

  lemma NoHeadsParse(lines: seq<string>)
    requires NoHeads(lines)
    ensures HeadersParse(lines)
  {
  }

  lemma ParsesIffHeadersDo(patch: string)
    ensures ParsePatch(patch).Ok? <==> HeadersParse(Split(patch))
    ensures ParsePatch(patch).Err? ==> exists k :: FirstBad(Split(patch), k, ParsePatch(patch).error)
  {
    hide Hunks, IsHead, ParseHeader, Preamble, Blocks;
    var lines := Split(patch);
    var p := Preamble(lines);
    BlocksFacts(lines);
    HunksFollowHeaders(Blocks(lines));
    BeforePreamble(lines);
    NoHeadsParse(lines[..p]);
    assert lines == lines[..p] + lines[p..];
    HeadersConcat(lines[..p], lines[p..]);
    if ParsePatch(patch).Err? {
      var k: nat :| FirstBad(lines[p..], k, ParsePatch(patch).error);
      assert lines[..p + k] == lines[..p] + lines[p..][..k];
      HeadersConcat(lines[..p], lines[p..][..k]);
      assert FirstBad(lines, p + k, ParsePatch(patch).error);
    }
  }

  // ------------------------------------------------------------------ conservation

  function RawText(hunks: seq<Hunk>): string {
    if hunks == [] then "" else hunks[0].rawDiff + RawText(hunks[1..])
  }

  /** The text from its first line that begins with "@@" on, if there is one. */
  function FromFirstHead(s: string): Option<string>
    decreases |s|
  {
    if IsHead(s) then Some(s)
    else
      var n := Until(s, NEWLINE);
      if n == |s| then None else FromFirstHead(s[n + 1..])
  }

  lemma {:induction false} HunksKeepText(blocks: seq<seq<string>>)
    requires AreBlocks(blocks) && Hunks(blocks).Ok?
    ensures
      var hunks := Hunks(blocks).value;
      && |hunks| == |blocks| && RawText(hunks) == Unlines(Flatten(blocks))
      && forall i :: 0 <= i < |blocks| ==> hunks[i].rawDiff == Unlines(blocks[i])
  {
    hide ParseHeader, IsHead, Unlines;
    UnlinesNothing();
    if blocks == [] {
    } else {
      HunksKeepText(blocks[1..]);
      UnlinesConcat(blocks[0], Flatten(blocks[1..]));
      var hunks := Hunks(blocks).value;
      assert hunks[1..] == Hunks(blocks[1..]).value;
      assert forall i :: 1 <= i < |blocks| ==> blocks[i] == blocks[1..][i - 1] && hunks[i] == hunks[1..][i - 1];
    }
  }

  lemma UnlinesNothing()
    ensures Unlines([]) == ""
  {
  }

  lemma {:induction false} FirstHeadText(s: string)
    decreases |s|
    ensures
      var lines := Split(s);
      FromFirstHead(s) == if Preamble(lines) < |lines| then Some(Join(lines[Preamble(lines)..])) else None
  {
    var n := Until(s, NEWLINE);
    var lines := Split(s);
    JoinSplit(s);
    HeadOfFirstLine(s, n);
    PreambleStep(lines);
    if n == |s| {
      assert lines[..] == lines && lines[0..] == lines;
    } else {
      hide IsHead;
      FirstHeadText(s[n + 1..]);
      assert lines[1..] == Split(s[n + 1..]) && lines[0..] == lines;
      var m := Preamble(lines[1..]);
      assert lines[1..][m..] == lines[m + 1..];
    }
  }

  lemma HeadOfFirstLine(s: string, n: nat)
    requires n == Until(s, NEWLINE)
    ensures IsHead(s[..n]) <==> IsHead(s)
  {
  }

  /** No text of a hunk is lost or moved: the hunks are as many as the header lines, and their raw
      texts, one after the other, are the patch from its first header on and one newline. */
  lemma NothingLost(patch: string)
    requires ParsePatch(patch).Ok?
    ensures
      var hunks := ParsePatch(patch).value;
      && |hunks| == HeadCount(Split(patch))
      && (hunks == [] <==> FromFirstHead(patch).None?)
      && (hunks != [] ==> RawText(hunks) == FromFirstHead(patch).value + [NEWLINE])
  {
    hide IsHead, ParseHeader, Preamble, Blocks, Hunks, Unlines, Join, HeadCount;
    var lines := Split(patch);
    var p := Preamble(lines);
    BlocksFacts(lines);
    HunksKeepText(Blocks(lines));
    FirstHeadText(patch);
    if p < |lines| {
      UnlinesIsJoin(lines[p..]);
      assert Flatten(Blocks(lines)) != [];
    } else {
      NoBlocks(lines);
    }
  }

  /** Each hunk's raw text has exactly one header line, its first. */
  lemma OneHeaderEach(patch: string, i: nat)
    requires ParsePatch(patch).Ok? && i < |ParsePatch(patch).value|
    ensures
      var own := Split(ParsePatch(patch).value[i].rawDiff);
      IsHead(own[0]) && HeadCount(own) == 1
  {
    hide ParseHeader, Preamble, Blocks, Hunks, Unlines, Join;
    var lines := Split(patch);
    BlocksFacts(lines);
    HunksKeepText(Blocks(lines));
    var block := Blocks(lines)[i];
    assert IsBlock(block);
    JoinSplit(patch);
    BlockLines(lines, i);
    SplitUnlines(block);
    HeadCountConcat(block, [""]);
    NoHeadsCount(block[1..]);
    NoHeadsCount([""]);
    assert IsHead(block[0]);
  }

  lemma BlockLines(lines: seq<string>, i: nat)
    requires AreLines(lines) && i < |Blocks(lines)|
    ensures AreLines(Blocks(lines)[i])
  {
    hide IsHead, Preamble, Blocks;
    BlocksFacts(lines);
    forall l | l in Blocks(lines)[i]
      ensures l in lines
    {
      InFlatten(Blocks(lines), i, l);
    }
  }

  lemma {:induction false} InFlatten(blocks: seq<seq<string>>, i: nat, l: string)
    requires i < |blocks| && l in blocks[i]
    ensures l in Flatten(blocks)
  {
    if i == 0 {
    } else {
      InFlatten(blocks[1..], i - 1, l);
    }
  }

  lemma SplitUnlines(lines: seq<string>)
    requires lines != [] && AreLines(lines)
    ensures Split(Unlines(lines)) == lines + [""]
  {
    JoinSnoc(lines);
    SplitJoin(lines + [""]);
  }

  lemma {:induction false} JoinSnoc(lines: seq<string>)
    requires lines != []
    ensures Join(lines + [""]) == Unlines(lines)
  {
    assert (lines + [""])[1..] == lines[1..] + [""];
    if |lines| > 1 {
      JoinSnoc(lines[1..]);
    } else {
      assert lines[1..] + [""] == [""];
    }
  }

  // ------------------------------------------------------------------ printing and reading back

  /** A hunk as a diff prints it. A count of 1 may be left out. */
  datatype Printed = Printed(
    oldRange: Range, oldShort: bool, newRange: Range, newShort: bool, heading: string, body: seq<string>)

  predicate InRange(r: Range) {
    InInt64(r.start) && InInt64(r.count)
  }

  ghost predicate Printable(p: Printed) {
    && InRange(p.oldRange) && InRange(p.newRange)
    && (p.oldShort ==> p.oldRange.count == 1) && (p.newShort ==> p.newRange.count == 1)
    && IsLine(p.heading) && AreLines(p.body) && NoHeads(p.body)
  }

  function RangeText(r: Range, short: bool): string {
    Signed(r.start) + if short then "" else "," + Signed(r.count)
  }

  function Ranges(p: Printed): string {
    ("-" + RangeText(p.oldRange, p.oldShort)) + " " + ("+" + RangeText(p.newRange, p.newShort))
  }

  function HeadLine(p: Printed): string {
    "@@ " + Ranges(p) + " @@" + p.heading
  }

  function BlockOf(p: Printed): seq<string> {
    [HeadLine(p)] + p.body
  }

  function PrintedLines(ps: seq<Printed>): seq<string> {
    if ps == [] then [] else BlockOf(ps[0]) + PrintedLines(ps[1..])
  }

  function Expected(p: Printed): Hunk {
    Hunk(p.oldRange, p.newRange, Unlines(BlockOf(p)))
  }

  function AllExpected(ps: seq<Printed>): seq<Hunk> {
    if ps == [] then [] else [Expected(ps[0])] + AllExpected(ps[1..])
  }

  predicate RangeChars(s: string) {
    forall c <- s :: c == '-' || c == '+' || c == ',' || IsDigit(c)
  }

  lemma RangeTextChars(r: Range, short: bool)
    ensures RangeChars(RangeText(r, short))
  {
    SignedChars(r.start);
    SignedChars(r.count);
  }

  lemma NoCommaIn(i: int)
    ensures Until(Signed(i), ',') == |Signed(i)|
  {
    SignedChars(i);
    var s := Signed(i);
    assert forall k :: 0 <= k < |s| ==> s[k] in s;
  }

  lemma RangeReadsBack(c: char, r: Range, short: bool)
    requires c == '-' || c == '+'
    requires InRange(r) && (short ==> r.count == 1)
    ensures ParseRange([c] + RangeText(r, short)) == Some(r)
  {
    hide Atoi, Signed;
    var start, count := Signed(r.start), Signed(r.count);
    NoCommaIn(r.start);
    AtoiReadsSigned(r.start);
    AtoiReadsSigned(r.count);
    if short {
      assert RangeText(r, short) == start;
      StartOnly(c, start);
    } else {
      StartAndCount(c, start, count);
    }
  }

  lemma StartOnly(c: char, start: string)
    requires (c == '-' || c == '+') && Until(start, ',') == |start|
    ensures ParseRange([c] + start) == if Atoi(start).Some? then Some(Range(Atoi(start).value, 1)) else None
  {
    hide Atoi;
    assert ([c] + start)[1..] == start;
  }

  lemma StartAndCount(c: char, start: string, count: string)
    requires (c == '-' || c == '+') && Until(start, ',') == |start|
    requires Atoi(start).Some? && Atoi(count).Some?
    ensures ParseRange([c] + (start + ("," + count))) == Some(Range(Atoi(start).value, Atoi(count).value))
  {
    hide Atoi;
    var t := start + ("," + count);
    assert ([c] + t)[1..] == t;
    UntilFirst(start, count);
    assert t[..|start|] == start && t[|start| + 1..] == count;
  }

  lemma UntilFirst(a: string, b: string)
    requires Until(a, ',') == |a|
    ensures Until(a + ("," + b), ',') == |a|
  {
    var s := a + ("," + b);
    assert a[..|a|] == a && ',' !in a;
    assert s[|a|] == ',' && forall k :: 0 <= k < |a| ==> s[k] == a[k] && a[k] in a;
  }

  lemma RangesChars(p: Printed)
    ensures forall c <- Ranges(p) :: c == ' ' || c == '-' || c == '+' || c == ',' || IsDigit(c)
  {
    RangeTextChars(p.oldRange, p.oldShort);
    RangeTextChars(p.newRange, p.newShort);
  }

  /** The closing mark is found right after the ranges, whatever the heading says. */
  lemma ClosingMark(ranges: string, heading: string)
    requires forall c <- ranges :: c != '@'
    ensures Index(ranges + " @@" + heading, " @@") == Some(|ranges|)
  {
    var s := ranges + " @@" + heading;
    IndexFromFacts(s, " @@", 0);
    assert s[|ranges|..] == " @@" + heading;
    assert HasPrefix(s[|ranges|..], " @@");
    forall k | 0 <= k < |ranges|
      ensures !HasPrefix(s[k..], " @@")
    {
      assert k + 1 < |ranges| ==> s[k + 1] == ranges[k + 1] && ranges[k + 1] in ranges;
      assert s[k + 1] != '@';
      assert s[k..][1] == s[k + 1];
    }
  }

  lemma RangeNoSpace(s: string)
    requires RangeChars(s)
    ensures NoSpace(s)
  {
  }

  lemma HeaderReadsBack(p: Printed)
    requires InRange(p.oldRange) && InRange(p.newRange)
    requires (p.oldShort ==> p.oldRange.count == 1) && (p.newShort ==> p.newRange.count == 1)
    ensures IsHead(HeadLine(p)) && ParseHeader(HeadLine(p)) == Ok((p.oldRange, p.newRange))
  {
    var a, b := "-" + RangeText(p.oldRange, p.oldShort), "+" + RangeText(p.newRange, p.newShort);
    var ranges := Ranges(p);
    HeadLineShape(p);
    RangesChars(p);
    ClosingMark(ranges, p.heading);
    var rest := ranges + " @@" + p.heading;
    assert rest[..|ranges|] == ranges;
    RangeTextChars(p.oldRange, p.oldShort);
    RangeTextChars(p.newRange, p.newShort);
    RangeNoSpace(a);
    RangeNoSpace(b);
    TwoFields(a, b);
    RangeReadsBack('-', p.oldRange, p.oldShort);
    RangeReadsBack('+', p.newRange, p.newShort);
  }

  lemma HeadLineShape(p: Printed)
    ensures IsHead(HeadLine(p)) && HasPrefix(HeadLine(p), "@@ ")
    ensures HeadLine(p)[3..] == Ranges(p) + " @@" + p.heading
  {
  }

  lemma HeadLineIsLine(p: Printed)
    requires IsLine(p.heading)
    ensures IsLine(HeadLine(p))
  {
    RangesChars(p);
  }

  ghost predicate AllPrintable(ps: seq<Printed>) {
    forall i :: 0 <= i < |ps| ==> Printable(ps[i])
  }

  lemma {:induction false} PrintedFacts(ps: seq<Printed>)
    requires AllPrintable(ps)
    ensures AreLines(PrintedLines(ps)) && Preamble(PrintedLines(ps)) == 0
    ensures Hunks(Blocks(PrintedLines(ps))) == Ok(AllExpected(ps))
  {
    hide ParseHeader, HeadLine, Preamble, Blocks, IsHead;
    if ps == [] {
      NoBlocks([]);
      PreambleAt([], []);
    } else {
      var p := ps[0];
      assert Printable(p);
      HeaderReadsBack(p);
      HeadLineIsLine(p);
      PrintedFacts(ps[1..]);
      var rest := PrintedLines(ps[1..]);
      var lines := BlockOf(p) + rest;
      assert lines[0] == HeadLine(p) && lines[1..] == p.body + rest;
      PreambleStep(lines);
      PreambleAt(p.body, rest);
      var q := |p.body|;
      FirstBlock(lines, 0, q);
      assert lines[0..1 + q] == BlockOf(p) && lines[1 + q..] == rest;
      AfterSnoc([], BlockOf(p), Blocks(rest));
      AfterNothing(Hunks([BlockOf(p)] + Blocks(rest)));
      assert HunkOf(BlockOf(p)) == Ok(Expected(p));
      assert [] + [Expected(p)] + AllExpected(ps[1..]) == AllExpected(ps);
    }
  }

  /** Lines without a header in front of lines that begin with one. */
  lemma {:induction false} PreambleAt(a: seq<string>, b: seq<string>)
    requires NoHeads(a) && Preamble(b) == 0
    ensures Preamble(a + b) == |a|
  {
    if a == [] {
      assert a + b == b;
    } else {
      assert (a + b)[1..] == a[1..] + b;
      assert forall k :: 0 <= k < |a| - 1 ==> a[1..][k] == a[k + 1];
      PreambleAt(a[1..], b);
      PreambleStep(a + b);
    }
  }

  /** Printing hunks and parsing the text gives the same ranges and raw texts back, whatever
      stands before the first header. */
  lemma PrintedReadBack(before: seq<string>, ps: seq<Printed>)
    requires AllPrintable(ps) && AreLines(before) && NoHeads(before)
    requires before + PrintedLines(ps) != []
    ensures ParsePatch(Join(before + PrintedLines(ps))) == Ok(AllExpected(ps))
  {
    hide Hunks, Blocks, Preamble, ParseHeader, IsHead, AllExpected, PrintedLines;
    var lines := PrintedLines(ps);
    PrintedFacts(ps);
    SplitJoin(before + lines);
    DropNoHeads(before, lines);
  }

  lemma {:induction false} DropNoHeads(before: seq<string>, lines: seq<string>)
    requires NoHeads(before)
    ensures Blocks(before + lines) == Blocks(lines)
  {
    hide Blocks, IsHead;
    if before == [] {
      assert before + lines == lines;
    } else {
      assert (before + lines)[1..] == before[1..] + lines;
      assert forall k :: 0 <= k < |before| - 1 ==> before[1..][k] == before[k + 1];
      BlocksDrop(before + lines);
      DropNoHeads(before[1..], lines);
    }
  }

  // ------------------------------------------------------------------ which headers are read

  /** What follows the first character is a start, or a start, a comma and a count. */
  ghost predicate IsRange(s: string, r: Range) {
    && s != [] && s[0] < '\U{80}'
    && ((',' !in s[1..] && Atoi(s[1..]) == Some(r.start) && r.count == 1)
        || exists a, b :: StartAndCountAre(s[1..], a, b, r))
  }

  ghost predicate StartAndCountAre(t: string, a: string, b: string, r: Range) {
    t == a + ("," + b) && ',' !in a && Atoi(a) == Some(r.start) && Atoi(b) == Some(r.count)
  }

  lemma ParseRangeIff(s: string, r: Range)
    requires s != []
    ensures ParseRange(s) == Some(r) <==> IsRange(s, r)
  {
    hide Atoi, Until, StartAndCountAre;
    var t := s[1..];
    NoCommaIff(t);
    if Until(t, ',') == |t| {
      forall a, b
        ensures !StartAndCountAre(t, a, b, r)
      {
        NoPair(t, a, b, r);
      }
    } else {
      PairIff(t, r);
    }
  }

  lemma NoPair(t: string, a: string, b: string, r: Range)
    requires Until(t, ',') == |t|
    ensures !StartAndCountAre(t, a, b, r)
  {
    hide Atoi;
    UntilComma(t, a, b);
  }

  lemma PairIff(t: string, r: Range)
    requires Until(t, ',') < |t|
    ensures
      var comma := Until(t, ',');
      (Atoi(t[..comma]) == Some(r.start) && Atoi(t[comma + 1..]) == Some(r.count)) <==>
      exists a, b :: StartAndCountAre(t, a, b, r)
  {
    hide Atoi, Until;
    var comma := Until(t, ',');
    var x, y := t[..comma], t[comma + 1..];
    CommaCut(t);
    if Atoi(x) == Some(r.start) && Atoi(y) == Some(r.count) {
      assert StartAndCountAre(t, x, y, r);
    }
    forall a, b | StartAndCountAre(t, a, b, r)
      ensures a == x && b == y
    {
      CommaAt(a, b);
    }
  }

  lemma CommaCut(t: string)
    requires Until(t, ',') < |t|
    ensures t == t[..Until(t, ',')] + ("," + t[Until(t, ',') + 1..])
  {
    hide *;
    CutOut(t, Until(t, ','));
  }

  lemma CutOut(t: string, i: nat)
    requires i < |t|
    ensures t == t[..i] + ([t[i]] + t[i + 1..])
  {
    hide *;
  }

  lemma CommaAt(a: string, b: string)
    requires ',' !in a
    ensures
      var t := a + ("," + b);
      Until(t, ',') == |a| && t[..|a|] == a && t[|a| + 1..] == b
  {
    hide Until;
    UntilAt(a, b);
  }

  lemma NoCommaIff(t: string)
    ensures Until(t, ',') == |t| <==> ',' !in t
  {
    assert Until(t, ',') == |t| ==> t[..|t|] == t;
    assert Until(t, ',') < |t| ==> t[Until(t, ',')] in t;
  }

  lemma UntilAt(a: string, b: string)
    requires ',' !in a
    ensures Until(a + ("," + b), ',') == |a|
  {
    NoCommaIff(a);
    UntilFirst(a, b);
  }

  lemma UntilComma(t: string, a: string, b: string)
    requires Until(t, ',') == |t|
    ensures t != a + ("," + b)
  {
    NoCommaIff(t);
    assert (a + ("," + b))[|a|] == ',';
  }

  /** The line is a header mark, the text of the ranges, the first closing mark after it, and anything. */
  ghost predicate Marked(line: string, ranges: string, heading: string) {
    line == "@@ " + (ranges + " @@" + heading) && Index(ranges + " @@" + heading, " @@") == Some(|ranges|)
  }

  /** What a header line is read as, or refused for. */
  ghost predicate ReadAs(line: string, ranges: string, r: Result<(Range, Range), PatchError>) {
    var words := Fields(ranges);
    if |words| < 2 then r == Err(MissingRanges(line))
    else if forall a :: !IsRange(words[0], a) then r == Err(BadOldRange(line))
    else if forall b :: !IsRange(words[1], b) then r == Err(BadNewRange(line))
    else r.Ok? && IsRange(words[0], r.value.0) && IsRange(words[1], r.value.1)
  }

  /** Every line by what becomes of it: without the mark it is malformed, without a closing mark it is
      refused for that, and otherwise for too few words, a bad first or a bad second range; only then
      it is read. */
  lemma HeaderExactly(line: string)
    ensures !HasPrefix(line, "@@ ") ==> ParseHeader(line) == Err(MalformedHeader(line))
    ensures HasPrefix(line, "@@ ") && (forall ranges, heading :: !Marked(line, ranges, heading)) ==>
      ParseHeader(line) == Err(NoClosingMark(line))
    ensures forall ranges, heading :: Marked(line, ranges, heading) ==> ReadAs(line, ranges, ParseHeader(line))
  {
    hide ParseRange, IsRange, Fields, Index, ReadAs;
    if HasPrefix(line, "@@ ") {
      var rest := line[3..];
      assert line == "@@ " + rest;
      if Index(rest, " @@").Some? {
        var end := Index(rest, " @@").value;
        CutAt(rest, end);
        ClosedHeader(line, end);
      } else {
        forall ranges, heading
          ensures !Marked(line, ranges, heading)
        {
          MarkedRest(line, ranges, heading);
        }
      }
      forall ranges, heading | Marked(line, ranges, heading)
        ensures ReadAs(line, ranges, ParseHeader(line))
      {
        MarkedRest(line, ranges, heading);
        assert (ranges + " @@" + heading)[..|ranges|] == ranges;
        ClosedHeader(line, |ranges|);
      }
    } else {
      forall ranges, heading
        ensures !Marked(line, ranges, heading)
      {
        assert HasPrefix("@@ " + (ranges + " @@" + heading), "@@ ");
      }
    }
  }

  lemma CutAt(rest: string, end: nat)
    requires Index(rest, " @@") == Some(end)
    ensures end + 3 <= |rest| && Marked("@@ " + rest, rest[..end], rest[end + 3..])
  {
    IndexFromFacts(rest, " @@", 0);
    assert HasPrefix(rest[end..], " @@");
    assert rest == rest[..end] + " @@" + rest[end + 3..];
  }

  lemma MarkedRest(line: string, ranges: string, heading: string)
    ensures Marked(line, ranges, heading) ==> HasPrefix(line, "@@ ") && line[3..] == ranges + " @@" + heading
    ensures Marked(line, ranges, heading) ==> Index(line[3..], " @@") == Some(|ranges|)
  {
    hide Index;
    assert ("@@ " + (ranges + " @@" + heading))[3..] == ranges + " @@" + heading;
  }

  lemma ClosedHeader(line: string, end: nat)
    requires HasPrefix(line, "@@ ") && Index(line[3..], " @@") == Some(end) && end <= |line[3..]|
    ensures ReadAs(line, line[3..][..end], ParseHeader(line))
  {
    hide ParseRange, IsRange, Fields, Index;
    var words := Fields(line[3..][..end]);
    if |words| >= 2 {
      RangeOrNot(words[0]);
      RangeOrNot(words[1]);
    }
  }

  lemma RangeOrNot(s: string)
    requires s != []
    ensures ParseRange(s).None? <==> forall r :: !IsRange(s, r)
    ensures ParseRange(s).Some? ==> IsRange(s, ParseRange(s).value)
  {
    hide ParseRange, IsRange;
    if ParseRange(s).Some? {
      ParseRangeIff(s, ParseRange(s).value);
    }
    forall r | IsRange(s, r)
      ensures ParseRange(s) == Some(r)
    {
      ParseRangeIff(s, r);
    }
  }
}
