/** The string functions the program uses, over sequences of code points. */
module Text {
  import opened Outcomes

  const NEWLINE := '\n'

  predicate HasPrefix(s: string, prefix: string) {
    prefix <= s
  }

  predicate HasSuffix(s: string, suffix: string) {
    |suffix| <= |s| && s[|s| - |suffix|..] == suffix
  }

  /** The first place from position i on where part occurs. */
  function IndexFrom(s: string, part: string, i: nat): (r: Option<nat>)
    requires i <= |s|
    ensures r.Some? ==> r.value <= |s|
    decreases |s| - i
  {
    if HasPrefix(s[i..], part) then Some(i)
    else if i == |s| then None
    else IndexFrom(s, part, i + 1)
  }

  function Index(s: string, part: string): (r: Option<nat>)
    ensures r.Some? ==> r.value <= |s|
  {
    IndexFrom(s, part, 0)
  }

  lemma {:induction false} IndexFromFacts(s: string, part: string, i: nat)
    requires i <= |s|
    decreases |s| - i
    ensures
      var r := IndexFrom(s, part, i);
      && (r.Some? ==> i <= r.value <= |s| && HasPrefix(s[r.value..], part))
      && forall k :: i <= k < (if r.Some? then r.value else |s| + 1) && k <= |s| ==> !HasPrefix(s[k..], part)
  {
    if i < |s| {
      IndexFromFacts(s, part, i + 1);
    }
  }

  predicate Contains(s: string, part: string) {
    Index(s, part).Some?
  }

  /** The place of the first c, or the length. */
  function Until(s: string, c: char): (n: nat)
    ensures n <= |s| && c !in s[..n] && (n < |s| ==> s[n] == c)
  {
    if s == [] || s[0] == c then 0 else 1 + Until(s[1..], c)
  }

  function Split(s: string): (lines: seq<string>)
    ensures lines != []
  {
    var n := Until(s, NEWLINE);
    if n == |s| then [s] else [s[..n]] + Split(s[n + 1..])
  }

  function Join(lines: seq<string>): string {
    if lines == [] then "" else if |lines| == 1 then lines[0] else lines[0] + [NEWLINE] + Join(lines[1..])
  }

  /** Every line with a newline after it. */
  function Unlines(lines: seq<string>): string {
    if lines == [] then "" else lines[0] + [NEWLINE] + Unlines(lines[1..])
  }

  predicate IsLine(s: string) {
    NEWLINE !in s
  }

  predicate AreLines(lines: seq<string>) {
    forall l <- lines :: IsLine(l)
  }

  predicate IsSpace(c: char) {
    c in "\t\n\U{B}\U{C}\r \U{85}\U{A0}\U{1680}\U{2028}\U{2029}\U{202F}\U{205F}\U{3000}" || '\U{2000}' <= c <= '\U{200A}'
  }

  predicate NoSpace(s: string) {
    forall c <- s :: !IsSpace(c)
  }

  function TrimLeft(s: string): (t: string)
    ensures |t| <= |s| && (t != [] ==> !IsSpace(t[0]))
  {
    if s != [] && IsSpace(s[0]) then TrimLeft(s[1..]) else s
  }

  function TrimRight(s: string): (t: string)
    ensures t <= s && (t != [] ==> !IsSpace(t[|t| - 1]))
  {
    if s != [] && IsSpace(s[|s| - 1]) then TrimRight(s[..|s| - 1]) else s
  }

  function TrimSpace(s: string): string {
    TrimRight(TrimLeft(s))
  }

  /** The length of the run of non-space characters s begins with. */
  function WordLength(s: string): (n: nat)
    ensures n <= |s| && NoSpace(s[..n]) && (n < |s| ==> IsSpace(s[n]))
    ensures s != [] && !IsSpace(s[0]) ==> n > 0
  {
    if s == [] || IsSpace(s[0]) then 0 else 1 + WordLength(s[1..])
  }

  /** The words of s, cut at runs of white space. */
  function Fields(s: string): (words: seq<string>)
    ensures forall i :: 0 <= i < |words| ==> words[i] != [] && NoSpace(words[i])
    decreases |s|
  {
    var t := TrimLeft(s);
    if t == [] then [] else [t[..WordLength(t)]] + Fields(t[WordLength(t)..])
  }

  lemma {:induction false} JoinSplit(s: string)
    ensures Join(Split(s)) == s && AreLines(Split(s))
  {
    var n := Until(s, NEWLINE);
    if n == |s| {
      assert s[..n] == s;
    } else {
      JoinSplit(s[n + 1..]);
      assert s == s[..n] + [NEWLINE] + s[n + 1..];
      assert Split(s)[1..] == Split(s[n + 1..]);
    }
  }

  lemma UntilOf(line: string, rest: string)
    requires IsLine(line)
    ensures Until(line + [NEWLINE] + rest, NEWLINE) == |line|
  {
    var s := line + [NEWLINE] + rest;
    assert s[|line|] == NEWLINE;
    assert forall k :: 0 <= k < |line| ==> s[k] == line[k];
  }

  lemma UntilWhole(line: string)
    requires IsLine(line)
    ensures Until(line, NEWLINE) == |line|
  {
    assert forall k :: 0 <= k < |line| ==> line[k] in line;
  }

  lemma {:induction false} SplitJoin(lines: seq<string>)
    requires lines != [] && AreLines(lines)
    ensures Split(Join(lines)) == lines
  {
    if |lines| == 1 {
      UntilWhole(lines[0]);
    } else {
      var rest := Join(lines[1..]);
      UntilOf(lines[0], rest);
      var s := lines[0] + [NEWLINE] + rest;
      assert s[..|lines[0]|] == lines[0] && s[|lines[0]| + 1..] == rest;
      assert forall l <- lines[1..] :: l in lines;
      SplitJoin(lines[1..]);
    }
  }

  lemma {:induction false} UnlinesIsJoin(lines: seq<string>)
    requires lines != []
    ensures Unlines(lines) == Join(lines) + [NEWLINE]
  {
    if |lines| > 1 {
      UnlinesIsJoin(lines[1..]);
    }
  }

  lemma {:induction false} UnlinesConcat(a: seq<string>, b: seq<string>)
    ensures Unlines(a + b) == Unlines(a) + Unlines(b)
  {
    if a == [] {
      assert a + b == b;
    } else {
      assert (a + b)[1..] == a[1..] + b;
      UnlinesConcat(a[1..], b);
    }
  }

  lemma {:induction false} WordOf(w: string, rest: string)
    requires NoSpace(w) && (rest == [] || IsSpace(rest[0]))
    ensures WordLength(w + rest) == |w|
  {
    if w == [] {
      assert w + rest == rest;
    } else {
      assert (w + rest)[1..] == w[1..] + rest;
      WordOf(w[1..], rest);
    }
  }

  lemma TwoFields(a: string, b: string)
    requires a != [] && b != [] && NoSpace(a) && NoSpace(b)
    ensures Fields(a + " " + b) == [a, b]
  {
    var s := a + " " + b;
    assert s[0] == a[0] && s == a + (" " + b);
    WordOf(a, " " + b);
    assert s[|a|..] == " " + b && s[..|a|] == a;
    assert (" " + b)[1..] == b && TrimLeft(" " + b) == TrimLeft(b);
    WordOf(b, []);
    assert b + [] == b && b[|b|..] == [] && b[..|b|] == b;
    assert Fields(" " + b) == [b];
  }

  // ------------------------------------------------------------------ white space

  predicate AllSpace(s: string) {
    forall c <- s :: IsSpace(c)
  }

  /** The code points that count as white space. */
  lemma SpacesAre(c: char)
    ensures IsSpace(c) <==>
      c as int in {9, 10, 11, 12, 13, 32, 0x85, 0xA0, 0x1680, 0x2028, 0x2029, 0x202F, 0x205F, 0x3000}
      || 0x2000 <= c as int <= 0x200A
  {
  }

  lemma {:induction false} TrimLeftIs(s: string) returns (left: string)
    ensures s == left + TrimLeft(s) && AllSpace(left)
  {
    hide IsSpace;
    if s == [] || !IsSpace(s[0]) {
      left := [];
    } else {
      var rest := TrimLeftIs(s[1..]);
      left := [s[0]] + rest;
      assert s == [s[0]] + s[1..];
    }
  }

  lemma {:induction false} TrimRightIs(s: string) returns (right: string)
    ensures s == TrimRight(s) + right && AllSpace(right)
  {
    hide IsSpace;
    if s == [] || !IsSpace(s[|s| - 1]) {
      right := [];
    } else {
      var rest := TrimRightIs(s[..|s| - 1]);
      right := rest + [s[|s| - 1]];
      assert s == s[..|s| - 1] + [s[|s| - 1]];
    }
  }

  /** Nothing but white space is cut off, and none is left at either end. */
  lemma TrimSpaceIs(s: string) returns (left: string, right: string)
    ensures s == left + TrimSpace(s) + right && AllSpace(left) && AllSpace(right)
    ensures TrimSpace(s) != [] ==> !IsSpace(TrimSpace(s)[0]) && !IsSpace(TrimSpace(s)[|TrimSpace(s)| - 1])
  {
    hide IsSpace, AllSpace;
    left := TrimLeftIs(s);
    right := TrimRightIs(TrimLeft(s));
    assert TrimSpace(s) != [] ==> TrimSpace(s)[0] == TrimLeft(s)[0];
  }

  function Dense(s: string): string {
    if s == [] then [] else (if IsSpace(s[0]) then [] else [s[0]]) + Dense(s[1..])
  }

  function Concat(words: seq<string>): string {
    if words == [] then [] else words[0] + Concat(words[1..])
  }

  lemma {:induction false} DenseConcat(a: string, b: string)
    ensures Dense(a + b) == Dense(a) + Dense(b)
  {
    hide IsSpace;
    if a == [] {
      assert a + b == b;
    } else {
      assert (a + b)[1..] == a[1..] + b;
      DenseConcat(a[1..], b);
    }
  }

  lemma {:induction false} DenseWord(w: string)
    ensures NoSpace(w) ==> Dense(w) == w
    ensures AllSpace(w) ==> Dense(w) == []
  {
    hide IsSpace;
    if w == [] {
    } else {
      assert forall c <- w[1..] :: c in w;
      DenseWord(w[1..]);
    }
  }

  /** The words hold exactly the characters of s that are no white space, in order. */
  lemma {:induction false} FieldsKeep(s: string)
    ensures Concat(Fields(s)) == Dense(s)
    decreases |s|
  {
    hide IsSpace, NoSpace, AllSpace, Dense;
    var left := TrimLeftIs(s);
    var t := TrimLeft(s);
    DenseConcat(left, t);
    DenseWord(left);
    if t == [] {
      DenseWord([]);
      EmptyPlain();
    } else {
      var n := WordLength(t);
      assert t == t[..n] + t[n..];
      DenseConcat(t[..n], t[n..]);
      DenseWord(t[..n]);
      FieldsKeep(t[n..]);
      assert Fields(s) == [t[..n]] + Fields(t[n..]);
      assert Fields(s)[1..] == Fields(t[n..]);
    }
  }

  lemma EmptyPlain()
    ensures NoSpace([])
  {
  }

  predicate IsTrimmed(s: string) {
    s == [] || (!IsSpace(s[0]) && !IsSpace(s[|s| - 1]))
  }

  lemma {:induction false} TrimLeftOf(l: string, s: string)
    requires AllSpace(l) && (s == [] || !IsSpace(s[0]))
    ensures TrimLeft(l + s) == s
  {
    hide IsSpace;
    if l == [] {
      assert l + s == s;
    } else {
      assert (l + s)[1..] == l[1..] + s && (l + s)[0] == l[0] && l[0] in l;
      TrimLeftOf(l[1..], s);
    }
  }

  lemma {:induction false} TrimRightOf(s: string, r: string)
    requires AllSpace(r) && (s == [] || !IsSpace(s[|s| - 1]))
    ensures TrimRight(s + r) == s
  {
    hide IsSpace;
    if r == [] {
      assert s + r == s;
    } else {
      var n := |r| - 1;
      assert (s + r)[..|s| + n] == s + r[..n] && (s + r)[|s| + n] == r[n] && r[n] in r;
      TrimRightOf(s, r[..n]);
    }
  }

  /** What stands between white space at both ends is what trimming leaves. */
  lemma TrimSpaceOf(l: string, core: string, r: string)
    requires AllSpace(l) && AllSpace(r) && IsTrimmed(core)
    ensures TrimSpace(l + core + r) == core
  {
    hide IsSpace, AllSpace;
    if core == [] {
      AllSpaceConcat(l, r);
      TrimLeftOf(l + r, []);
      assert l + core + r == l + r == l + r + [];
    } else {
      assert l + core + r == l + (core + r) && (core + r)[0] == core[0];
      TrimLeftOf(l, core + r);
      TrimRightOf(core, r);
    }
  }

  lemma AllSpaceConcat(l: string, r: string)
    requires AllSpace(l) && AllSpace(r)
    ensures AllSpace(l + r)
  {
    hide IsSpace;
  }

  /** White space around a text makes no difference. */
  lemma TrimSpaceAround(l: string, s: string, r: string)
    requires AllSpace(l) && AllSpace(r)
    ensures TrimSpace(l + s + r) == TrimSpace(s)
  {
    hide IsSpace, AllSpace, TrimSpace;
    var x, y := TrimSpaceIs(s);
    var core := TrimSpace(s);
    AllSpaceConcat(l, x);
    AllSpaceConcat(y, r);
    assert l + s + r == (l + x) + core + (y + r);
    TrimSpaceOf(l + x, core, y + r);
  }
}
