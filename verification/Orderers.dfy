/** The file orderers of a review: as fetched, alphabetical, and entry points first. */
module Orderers {
  import opened Text
  import opened Patches

  datatype ChangeKind = Added | Deleted | Renamed | Modified

  datatype ReviewFile = ReviewFile(
    path: string, oldPath: string, change: ChangeKind, linesAdded: int, linesRemoved: int, hunks: seq<Hunk>)

  /** Lower case as far as it can matter for a match with ASCII text: besides the ASCII letters,
      only U+0130 and U+212A have an ASCII lower-case form. */
  function LowerChar(c: char): char {
    if 'A' <= c <= 'Z' then c + 32 as char
    else if c == '\U{130}' then 'i'
    else if c == '\U{212A}' then 'k'
    else c
  }

  function ToLower(s: string): string {
    seq(|s|, i requires 0 <= i < |s| => LowerChar(s[i]))
  }

  predicate ContainsAny(p: string, parts: seq<string>) {
    parts != [] && (Contains(p, parts[0]) || ContainsAny(p, parts[1..]))
  }

  predicate EndsInAny(p: string, suffixes: seq<string>) {
    suffixes != [] && (HasSuffix(p, suffixes[0]) || EndsInAny(p, suffixes[1..]))
  }

  predicate IsTest(p: string) {
    EndsInAny(p, ["_test.go"]) ||
    ContainsAny(p, ["/test/", "/tests/", ".test.", ".spec.", "_test.py"]) ||
    (ContainsAny(p, ["test_"]) && EndsInAny(p, [".py"]))
  }

  predicate IsDocumentation(p: string) {
    EndsInAny(p, [".md"]) || ContainsAny(p, ["/docs/"])
  }

  predicate IsInfrastructure(p: string) {
    ContainsAny(p, ["/config/", "/deploy/"]) || EndsInAny(p, [".yaml", ".yml", "dockerfile", "makefile"])
  }

  predicate IsRepository(p: string) {
    ContainsAny(p, ["/repository/", "/repositories/", "/adapter/", "/adapters/", "/dao/"])
  }

  predicate IsDomain(p: string) {
    ContainsAny(p, ["/service/", "/services/", "/domain/", "/model/", "/models/"])
  }

  predicate IsEntryPoint(p: string) {
    ContainsAny(p, ["/controller/", "/controllers/", "/handler/", "/handlers/", "/route/", "/routes/", "/api/", "/cmd/"]) ||
    EndsInAny(p, ["/main.go", "main.kt", "main.py", "index.ts", "index.js"])
  }

  const TEST_TIER := 80

  function Tier(path: string): (t: nat)
    ensures t in {10, 30, 40, 50, 60, 70, TEST_TIER} && (t == TEST_TIER <==> IsTest(ToLower(path)))
    ensures t >= 70 <==> IsTest(ToLower(path)) || IsDocumentation(ToLower(path))
    ensures t >= 60 <==> t >= 70 || IsInfrastructure(ToLower(path))
    ensures t >= 50 <==> t >= 60 || IsRepository(ToLower(path))
    ensures t < 50 ==> (t == 30 <==> IsDomain(ToLower(path)))
    ensures t == 10 || t == 40 ==> (t == 10 <==> IsEntryPoint(ToLower(path)))
  {
    var p := ToLower(path);
    if IsTest(p) then TEST_TIER
    else if IsDocumentation(p) then 70
    else if IsInfrastructure(p) then 60
    else if IsRepository(p) then 50
    else if IsDomain(p) then 30
    else if IsEntryPoint(p) then 10
    else 40
  }

  /** String order by code points, which for UTF-8 is the order by bytes. */
  predicate PathLess(a: string, b: string) {
    if b == [] then false
    else if a == [] then true
    else if a[0] != b[0] then a[0] < b[0]
    else PathLess(a[1..], b[1..])
  }

  datatype Orderer = AsFetched | Alphabetical | EntryPointsFirst

  datatype SortKey = SortKey(tier: nat, path: string)

  /** What an orderer compares; as fetched it compares nothing. */
  function KeyOf(o: Orderer, f: ReviewFile): SortKey {
    match o
    case AsFetched => SortKey(0, "")
    case Alphabetical => SortKey(0, f.path)
    case EntryPointsFirst => SortKey(Tier(f.path), f.path)
  }

  predicate KeyLess(a: SortKey, b: SortKey) {
    if a.tier != b.tier then a.tier < b.tier else PathLess(a.path, b.path)
  }

  /** Puts x behind everything in t that it does not have to precede. */
  function Insert(o: Orderer, t: seq<ReviewFile>, x: ReviewFile): seq<ReviewFile> {
    if t == [] || !KeyLess(KeyOf(o, x), KeyOf(o, t[|t| - 1])) then t + [x]
    else Insert(o, t[..|t| - 1], x) + [t[|t| - 1]]
  }

  function Sort(o: Orderer, files: seq<ReviewFile>): seq<ReviewFile> {
    if files == [] then [] else Insert(o, Sort(o, files[..|files| - 1]), files[|files| - 1])
  }

  /** A stable sort in place. */
  method SliceStable(o: Orderer, a: array<ReviewFile>)
    modifies a
    ensures a[..] == Sort(o, old(a[..]))
  {
    hide KeyOf, KeyLess, Sort;
    ghost var was := a[..];
    SortNothing(o, was);
    assert a[..0] == [];
    for i := 0 to a.Length
      invariant a[..i] == Sort(o, was[..i]) && a[i..] == was[i..]
    {
      InsertInPlace(o, a, i);
      SortNext(o, was, i);
    }
    assert a[..] == a[..a.Length] && was[..a.Length] == was;
  }

  lemma SortNothing(o: Orderer, s: seq<ReviewFile>)
    ensures Sort(o, s[..0]) == []
  {
  }

  lemma SortNext(o: Orderer, s: seq<ReviewFile>, i: nat)
    requires i < |s|
    ensures Sort(o, s[..i + 1]) == Insert(o, Sort(o, s[..i]), s[i])
  {
    assert s[..i + 1][..i] == s[..i];
  }

  /** Moves a[i] down to its place in the part before it. */
  method InsertInPlace(o: Orderer, a: array<ReviewFile>, i: nat)
    requires i < a.Length
    modifies a
    ensures a[..i + 1] == Insert(o, old(a[..i]), old(a[i])) && a[i + 1..] == old(a[i + 1..])
  {
    hide KeyOf, KeyLess, Insert;
    ghost var was := a[..];
    var j := i;
    InsertWhole(o, was[..i], was[i]);
    while j > 0 && KeyLess(KeyOf(o, a[j]), KeyOf(o, a[j - 1]))
      invariant 0 <= j <= i && a[j] == was[i]
      invariant forall k :: 0 <= k < j ==> a[k] == was[k]
      invariant forall k :: j < k <= i ==> a[k] == was[k - 1]
      invariant forall k :: i < k < a.Length ==> a[k] == was[k]
      invariant InsertsAt(o, was[..i], was[i], j)
    {
      InsertDown(o, was[..i], was[i], j);
      a[j], a[j - 1] := a[j - 1], a[j];
      j := j - 1;
    }
    InsertHere(o, was[..i], was[i], j);
    MovedDown(a[..], was, i, j);
  }

  lemma MovedDown(now: seq<ReviewFile>, was: seq<ReviewFile>, i: nat, j: nat)
    requires j <= i < |was| == |now| && now[j] == was[i]
    requires forall k :: 0 <= k < j ==> now[k] == was[k]
    requires forall k :: j < k <= i ==> now[k] == was[k - 1]
    requires forall k :: i < k < |now| ==> now[k] == was[k]
    ensures now[..i + 1] == was[..i][..j] + [was[i]] + was[..i][j..] && now[i + 1..] == was[i + 1..]
  {
  }

  /** Inserting x into t is inserting it into the first j elements. */
  ghost predicate InsertsAt(o: Orderer, t: seq<ReviewFile>, x: ReviewFile, j: nat) {
    j <= |t| && Insert(o, t, x) == Insert(o, t[..j], x) + t[j..]
  }

  lemma InsertWhole(o: Orderer, t: seq<ReviewFile>, x: ReviewFile)
    ensures InsertsAt(o, t, x, |t|)
  {
    assert t[..|t|] == t;
  }

  lemma InsertDown(o: Orderer, t: seq<ReviewFile>, x: ReviewFile, j: nat)
    requires InsertsAt(o, t, x, j) && j > 0 && KeyLess(KeyOf(o, x), KeyOf(o, t[j - 1]))
    ensures InsertsAt(o, t, x, j - 1)
  {
    hide KeyOf, KeyLess;
    assert t[..j][..j - 1] == t[..j - 1] && t[j - 1..] == [t[j - 1]] + t[j..];
  }

  lemma InsertHere(o: Orderer, t: seq<ReviewFile>, x: ReviewFile, j: nat)
    requires InsertsAt(o, t, x, j) && (j == 0 || !KeyLess(KeyOf(o, x), KeyOf(o, t[j - 1])))
    ensures Insert(o, t, x) == t[..j] + [x] + t[j..]
  {
  }

  lemma {:induction false} SortAsFetched(files: seq<ReviewFile>)
    ensures Sort(AsFetched, files) == files
  {
    if files == [] {
    } else {
      SortAsFetched(files[..|files| - 1]);
      assert files == files[..|files| - 1] + [files[|files| - 1]];
    }
  }

  /** Order of each orderer: a copy, sorted unless as fetched; the input is left as it is. */
  method Order(o: Orderer, files: array<ReviewFile>) returns (out: array<ReviewFile>)
    ensures fresh(out) && out[..] == Sort(o, files[..])
  {
    out := new ReviewFile[files.Length](i requires 0 <= i < files.Length reads files => files[i]);
    assert out[..] == files[..];
    if o.AsFetched? {
      SortAsFetched(files[..]);
    } else {
      SliceStable(o, out);
    }
  }
}
