/** Reading the model's prefixed lines into a step summary. */
module Summaries {
  import opened Outcomes
  import opened Text
  import opened Narration

  const PLACEHOLDER := "\U{2014}"

  /** The key and the value of a line, if it has a colon. */
  function Entry(line: string): Option<(string, string)> {
    var t := TrimSpace(line);
    var n := Until(t, ':');
    if t == "" || n == |t| then None
    else
      var value := TrimSpace(t[n + 1..]);
      Some((TrimSpace(t[..n]), if value == "" then PLACEHOLDER else value))
  }

  predicate HasKey(line: string, key: string) {
    Entry(line).Some? && Entry(line).value.0 == key
  }

  /** The value of the last line with that key, or the placeholder. */
  function LastValue(lines: seq<string>, key: string): string {
    if lines == [] then PLACEHOLDER
    else
      var last := lines[|lines| - 1];
      if HasKey(last, key) then Entry(last).value.1 else LastValue(lines[..|lines| - 1], key)
  }

  function Read(lines: seq<string>): StepSummary {
    StepSummary(
      LastValue(lines, "Breaking"), LastValue(lines, "Risk"), LastValue(lines, "WhatChanged"),
      LastValue(lines, "SideEffects"), LastValue(lines, "Tests"), LastValue(lines, "ReviewerFocus"),
      LastValue(lines, "Suggestion"), LastValue(lines, "Confidence"))
  }

  /** A summary after one more line. */
  function Updated(s: StepSummary, entry: Option<(string, string)>): StepSummary {
    if entry.None? then s
    else
      var (key, value) := entry.value;
      if key == "Breaking" then s.(breaking := value)
      else if key == "Risk" then s.(risk := value)
      else if key == "WhatChanged" then s.(whatChanged := value)
      else if key == "SideEffects" then s.(sideEffects := value)
      else if key == "Tests" then s.(tests := value)
      else if key == "ReviewerFocus" then s.(reviewerFocus := value)
      else if key == "Suggestion" then s.(suggestion := value)
      else if key == "Confidence" then s.(confidence := value)
      else s
  }

  lemma LastValueSnoc(lines: seq<string>, i: nat, key: string)
    requires i < |lines|
    ensures LastValue(lines[..i + 1], key) ==
      if HasKey(lines[i], key) then Entry(lines[i]).value.1 else LastValue(lines[..i], key)
  {
    assert lines[..i + 1][..i] == lines[..i];
  }

  lemma ReadSnoc(lines: seq<string>, i: nat)
    requires i < |lines|
    ensures Read(lines[..i + 1]) == Updated(Read(lines[..i]), Entry(lines[i]))
  {
    hide Entry, LastValue;
    LastValueSnoc(lines, i, "Breaking");
    LastValueSnoc(lines, i, "Risk");
    LastValueSnoc(lines, i, "WhatChanged");
    LastValueSnoc(lines, i, "SideEffects");
    LastValueSnoc(lines, i, "Tests");
    LastValueSnoc(lines, i, "ReviewerFocus");
    LastValueSnoc(lines, i, "Suggestion");
    LastValueSnoc(lines, i, "Confidence");
  }

  lemma ReadNothing(lines: seq<string>)
    ensures Read(lines[..0]) ==
      StepSummary(PLACEHOLDER, PLACEHOLDER, PLACEHOLDER, PLACEHOLDER, PLACEHOLDER, PLACEHOLDER, PLACEHOLDER, PLACEHOLDER)
  {
  }

  method ParseStepSummary(raw: string) returns (out: StepSummary)
    ensures out == Read(Split(raw))
  {
    hide TrimSpace, LastValue, Read;
    out := StepSummary(PLACEHOLDER, PLACEHOLDER, PLACEHOLDER, PLACEHOLDER, PLACEHOLDER, PLACEHOLDER, PLACEHOLDER, PLACEHOLDER);
    var lines := Split(raw);
    ReadNothing(lines);
    for i := 0 to |lines|
      invariant out == Read(lines[..i])
    {
      ReadSnoc(lines, i);
      var line := TrimSpace(lines[i]);
      if line == "" {
        continue;
      }
      var n := Until(line, ':');
      if n == |line| {
        continue;
      }
      var value := TrimSpace(line[n + 1..]);
      if value == "" {
        value := PLACEHOLDER;
      }
      var key := TrimSpace(line[..n]);
      assert Entry(lines[i]) == Some((key, value));
      if key == "Breaking" {
        out := out.(breaking := value);
      } else if key == "Risk" {
        out := out.(risk := value);
      } else if key == "WhatChanged" {
        out := out.(whatChanged := value);
      } else if key == "SideEffects" {
        out := out.(sideEffects := value);
      } else if key == "Tests" {
        out := out.(tests := value);
      } else if key == "ReviewerFocus" {
        out := out.(reviewerFocus := value);
      } else if key == "Suggestion" {
        out := out.(suggestion := value);
      } else if key == "Confidence" {
        out := out.(confidence := value);
      }
    }
    assert lines[..|lines|] == lines;
  }

  // ------------------------------------------------------------------ what it gives

  const KEYS := ["Breaking", "Risk", "WhatChanged", "SideEffects", "Tests", "ReviewerFocus", "Suggestion", "Confidence"]

  function Fields(s: StepSummary): (r: seq<string>)
    ensures |r| == |KEYS|
  {
    [s.breaking, s.risk, s.whatChanged, s.sideEffects, s.tests, s.reviewerFocus, s.suggestion, s.confidence]
  }

  /** The last line with the key decides; without one the field is the placeholder. */
  ghost predicate Decides(lines: seq<string>, key: string, value: string) {
    || (value == PLACEHOLDER && forall k :: 0 <= k < |lines| ==> !HasKey(lines[k], key))
    || exists k :: DecidesAt(lines, key, value, k)
  }

  ghost predicate DecidesAt(lines: seq<string>, key: string, value: string, k: nat) {
    && k < |lines| && Entry(lines[k]) == Some((key, value))
    && forall j :: k < j < |lines| ==> !HasKey(lines[j], key)
  }

  lemma {:induction false} LastValueDecides(lines: seq<string>, key: string)
    ensures Decides(lines, key, LastValue(lines, key)) && LastValue(lines, key) != ""
  {
    hide Entry;
    if lines == [] {
    } else {
      var n := |lines| - 1;
      var value := LastValue(lines, key);
      EntryValue(lines[n]);
      if HasKey(lines[n], key) {
        assert DecidesAt(lines, key, value, n);
      } else {
        LastValueDecides(lines[..n], key);
        if k :| DecidesAt(lines[..n], key, value, k) {
          assert forall j :: 0 <= j < n ==> lines[j] == lines[..n][j];
          assert DecidesAt(lines, key, value, k);
        } else {
          assert forall j :: 0 <= j < n ==> lines[j] == lines[..n][j];
        }
      }
    }
  }

  lemma EntryValue(line: string)
    ensures Entry(line).Some? ==> Entry(line).value.1 != ""
  {
    hide TrimSpace;
  }

  /** For every text, each of the eight fields is filled, by the last line with its key. */
  lemma FieldsDecided(raw: string, i: nat)
    requires i < |KEYS|
    ensures Fields(Read(Split(raw)))[i] == LastValue(Split(raw), KEYS[i])
    ensures Fields(Read(Split(raw)))[i] != "" && Decides(Split(raw), KEYS[i], Fields(Read(Split(raw)))[i])
  {
    hide LastValue, Decides;
    LastValueDecides(Split(raw), KEYS[i]);
  }

  lemma {:induction false} LastValueSkips(a: seq<string>, line: string, b: seq<string>, key: string)
    requires !HasKey(line, key)
    ensures LastValue(a + [line] + b, key) == LastValue(a + b, key)
  {
    hide HasKey, Entry;
    if b == [] {
      assert a + [line] + b == a + [line] && a + b == a && (a + [line])[..|a|] == a;
    } else {
      var n := |b| - 1;
      assert (a + [line] + b)[..|a| + 1 + n] == a + [line] + b[..n];
      assert (a + b)[..|a| + n] == a + b[..n];
      LastValueSkips(a, line, b[..n], key);
    }
  }

  /** A line without a colon or with another key changes nothing, wherever it is put. */
  lemma OtherLinesIgnored(a: seq<string>, line: string, b: seq<string>)
    requires forall key <- KEYS :: !HasKey(line, key)
    ensures Read(a + [line] + b) == Read(a + b)
  {
    hide HasKey, LastValue;
    forall i | 0 <= i < |KEYS|
      ensures LastValue(a + [line] + b, KEYS[i]) == LastValue(a + b, KEYS[i])
    {
      LastValueSkips(a, line, b, KEYS[i]);
    }
    assert KEYS[0] == "Breaking" && KEYS[1] == "Risk" && KEYS[2] == "WhatChanged" && KEYS[3] == "SideEffects";
    assert KEYS[4] == "Tests" && KEYS[5] == "ReviewerFocus" && KEYS[6] == "Suggestion" && KEYS[7] == "Confidence";
  }

  // ------------------------------------------------------------------ printing and reading back

  predicate Trimmed(v: string) {
    v != "" && !IsSpace(v[0]) && !IsSpace(v[|v| - 1])
  }

  /** A value that fits on a line. It may hold colons. */
  predicate Printable(v: string) {
    Trimmed(v) && IsLine(v)
  }

  function Line(key: string, value: string): string {
    key + ": " + value
  }

  function PrintedLines(s: StepSummary): seq<string> {
    [Line("Breaking", s.breaking), Line("Risk", s.risk), Line("WhatChanged", s.whatChanged),
     Line("SideEffects", s.sideEffects), Line("Tests", s.tests), Line("ReviewerFocus", s.reviewerFocus),
     Line("Suggestion", s.suggestion), Line("Confidence", s.confidence)]
  }

  lemma TrimmedStays(v: string)
    requires Trimmed(v)
    ensures TrimSpace(v) == v && TrimSpace(" " + v) == v
  {
    assert (" " + v)[1..] == v;
  }

  lemma EntryOfLine(key: string, value: string)
    requires Trimmed(key) && ':' !in key && Trimmed(value)
    ensures Entry(Line(key, value)) == Some((key, value))
  {
    hide TrimSpace, Until, Trimmed;
    var t := Line(key, value);
    LineParts(key, value);
    TrimmedStays(value);
    TrimmedStays(key);
    TrimmedStays(t);
    UntilColon(t, |key|);
    NotEmpty(value);
  }

  lemma NotEmpty(v: string)
    requires Trimmed(v)
    ensures v != ""
  {
  }

  lemma LineParts(key: string, value: string)
    requires Trimmed(key) && Trimmed(value)
    ensures
      var t := Line(key, value);
      |key| < |t| && t[|key|] == ':' && t[..|key|] == key && t[|key| + 1..] == " " + value && Trimmed(t)
  {
    hide IsSpace;
    var t := Line(key, value);
    assert t[0] == key[0] && t[|t| - 1] == value[|value| - 1];
  }

  lemma UntilColon(t: string, n: nat)
    requires n < |t| && t[n] == ':' && ':' !in t[..n]
    ensures Until(t, ':') == n
  {
    assert forall k :: 0 <= k < n ==> t[k] == t[..n][k] && t[k] in t[..n];
  }

  predicate PlainKey(key: string) {
    Trimmed(key) && ':' !in key && IsLine(key)
  }

  lemma KeyPlain(i: nat)
    requires i < |KEYS|
    ensures PlainKey(KEYS[i])
  {
    hide IsLine;
    LettersPlain(KEYS[i]);
  }

  lemma LettersPlain(key: string)
    requires key != "" && forall c <- key :: 'A' <= c <= 'z'
    ensures PlainKey(key)
  {
    assert key[0] in key && key[|key| - 1] in key;
  }

  lemma KeysDiffer(i: nat, j: nat)
    requires i < j < |KEYS|
    ensures KEYS[i] != KEYS[j]
  {
    assert |KEYS[i]| != |KEYS[j]| || KEYS[i][0] != KEYS[j][0];
  }

  lemma KeysPlain()
    ensures forall i :: 0 <= i < |KEYS| ==> PlainKey(KEYS[i])
    ensures forall i, j :: 0 <= i < j < |KEYS| ==> KEYS[i] != KEYS[j]
  {
    hide PlainKey;
    forall i | 0 <= i < |KEYS|
      ensures PlainKey(KEYS[i])
    {
      KeyPlain(i);
    }
    forall i, j | 0 <= i < j < |KEYS|
      ensures KEYS[i] != KEYS[j]
    {
      KeysDiffer(i, j);
    }
  }

  lemma PrintedAt(s: StepSummary, i: nat)
    requires i < |KEYS|
    ensures PrintedLines(s)[i] == Line(KEYS[i], Fields(s)[i])
  {
  }

  lemma {:induction false} OneLineEach(lines: seq<string>, key: string, value: string, k: nat)
    requires k < |lines| && Entry(lines[k]) == Some((key, value))
    requires forall j :: k < j < |lines| ==> !HasKey(lines[j], key)
    ensures LastValue(lines, key) == value
  {
    hide Entry;
    if k < |lines| - 1 {
      OneLineEach(lines[..|lines| - 1], key, value, k);
    }
  }

  /** Printing eight values and reading the text gives the values back. */
  lemma PrintedReadBack(s: StepSummary)
    requires forall i :: 0 <= i < |KEYS| ==> Printable(Fields(s)[i])
    ensures Read(Split(Join(PrintedLines(s)))) == s
  {
    hide Entry, LastValue, Line, Trimmed, Join, IsLine;
    var lines := PrintedLines(s);
    KeysPlain();
    forall i | 0 <= i < |KEYS|
      ensures Entry(lines[i]) == Some((KEYS[i], Fields(s)[i])) && IsLine(lines[i])
    {
      PrintedAt(s, i);
      EntryOfLine(KEYS[i], Fields(s)[i]);
      LineIsLine(KEYS[i], Fields(s)[i]);
    }
    SplitJoin(lines);
    forall i | 0 <= i < |KEYS|
      ensures LastValue(lines, KEYS[i]) == Fields(s)[i]
    {
      OneLineEach(lines, KEYS[i], Fields(s)[i], i);
    }
    FieldsOfRead(lines);
  }

  lemma LineIsLine(key: string, value: string)
    requires IsLine(key) && IsLine(value)
    ensures IsLine(Line(key, value))
  {
  }

  lemma FieldsOfRead(lines: seq<string>)
    ensures forall i :: 0 <= i < |KEYS| ==> Fields(Read(lines))[i] == LastValue(lines, KEYS[i])
    ensures forall s :: Fields(s) == Fields(Read(lines)) ==> s == Read(lines)
  {
    hide LastValue;
  }

  // ------------------------------------------------------------------ what a line says

  /** A line is cut at its first colon; key and value are trimmed, and an empty value is a dash. */
  lemma EntryOfParts(a: string, b: string)
    requires ':' !in a
    ensures Entry(a + ":" + b) == Some((TrimSpace(a), if TrimSpace(b) == "" then "\U{2014}" else TrimSpace(b)))
  {
    hide TrimSpace, IsSpace, AllSpace;
    var s := a + ":" + b;
    var l, r := TrimSpaceIs(s);
    var t := TrimSpace(s);
    ColonInside(a, b, l, t, r);
    var x, y := a[|l|..], b[..|b| - |r|];
    assert t == x + ":" + y && t[..|x|] == x && t[|x| + 1..] == y && t[|x|] == ':';
    UntilColon(t, |x|);
    assert a == l + x + [] && b == [] + y + r;
    NoChars();
    TrimSpaceAround(l, x, []);
    TrimSpaceAround([], y, r);
  }

  lemma NoChars()
    ensures AllSpace([])
  {
  }

  /** The colon is not among the white space that is cut off. */
  lemma ColonInside(a: string, b: string, l: string, t: string, r: string)
    requires a + ":" + b == l + t + r && AllSpace(l) && AllSpace(r) && ':' !in a
    ensures |l| <= |a| && |r| <= |b| && t == a[|l|..] + ":" + b[..|b| - |r|] && ':' !in a[|l|..]
    ensures a == l + a[|l|..] && b == b[..|b| - |r|] + r
  {
    hide IsSpace, AllSpace;
    var s := a + ":" + b;
    assert s[|a|] == ':';
    assert s == l + (t + r) == (l + t) + r;
    NoColonLeft(l, t + r, |a|);
    NoColonRight(l + t, r, |a|);
    Middle(a, b, l, t, r);
  }

  lemma NoColonLeft(l: string, rest: string, i: nat)
    requires AllSpace(l) && i < |l + rest| && (l + rest)[i] == ':'
    ensures |l| <= i
  {
    assert forall k :: 0 <= k < |l| ==> (l + rest)[k] == l[k] && l[k] in l;
  }

  lemma NoColonRight(front: string, r: string, i: nat)
    requires AllSpace(r) && i < |front + r| && (front + r)[i] == ':'
    ensures i < |front|
  {
    assert forall k :: |front| <= k < |front + r| ==> (front + r)[k] == r[k - |front|] && r[k - |front|] in r;
  }

  lemma Middle(a: string, b: string, l: string, t: string, r: string)
    requires a + ":" + b == l + t + r && |l| <= |a| && |r| <= |b| && ':' !in a
    ensures t == a[|l|..] + ":" + b[..|b| - |r|] && ':' !in a[|l|..]
    ensures a == l + a[|l|..] && b == b[..|b| - |r|] + r
  {
    var s := a + ":" + b;
    assert s[..|l|] == l == a[..|l|];
    assert s[|s| - |r|..] == r == b[|b| - |r|..];
    assert t == s[|l|..|s| - |r|] == a[|l|..] + ":" + b[..|b| - |r|];
  }

  lemma NoColonNoEntry(line: string)
    requires ':' !in line
    ensures Entry(line) == None
  {
    hide TrimSpace;
    var l, r := TrimSpaceIs(line);
    var t := TrimSpace(line);
    assert forall k :: 0 <= k < |t| ==> t[k] == line[|l| + k] && line[|l| + k] in line;
  }
}
