/** The orderers give one canonical order. */
module OrderTheory {
  import opened Text
  import opened Orderers

  // ------------------------------------------------------------------ the order of keys

  lemma {:induction false} PathLessIsStrict(a: string, b: string)
    ensures !(PathLess(a, b) && PathLess(b, a))
    ensures a != b ==> PathLess(a, b) || PathLess(b, a)
    ensures !PathLess(a, a)
  {
    if a == [] {
    } else {
      PathLessIsStrict(a[1..], if b == [] then [] else b[1..]);
      assert b != [] && a[0] == b[0] && a[1..] == b[1..] ==> a == [a[0]] + a[1..] == b;
    }
  }

  lemma {:induction false} PathLessTransitive(a: string, b: string, c: string)
    requires PathLess(a, b) && PathLess(b, c)
    ensures PathLess(a, c)
  {
    if a != [] && a[0] == b[0] && b[0] == c[0] {
      PathLessTransitive(a[1..], b[1..], c[1..]);
    }
  }

  lemma KeyLessIsStrict(a: SortKey, b: SortKey)
    ensures !(KeyLess(a, b) && KeyLess(b, a))
    ensures a != b ==> KeyLess(a, b) || KeyLess(b, a)
    ensures !KeyLess(a, a)
  {
    PathLessIsStrict(a.path, b.path);
  }

  lemma KeyLessTransitive(a: SortKey, b: SortKey, c: SortKey)
    requires !KeyLess(b, a) && !KeyLess(c, b)
    ensures !KeyLess(c, a)
  {
    KeyLessIsStrict(a, b);
    KeyLessIsStrict(b, c);
    KeyLessIsStrict(a, c);
    if a != b && b != c && a.tier == b.tier == c.tier {
      PathLessTransitive(a.path, b.path, c.path);
    }
  }

  // ------------------------------------------------------------------ sorted, and stable

  ghost predicate Sorted(o: Orderer, s: seq<ReviewFile>) {
    forall i, j :: 0 <= i < j < |s| ==> !KeyLess(KeyOf(o, s[j]), KeyOf(o, s[i]))
  }

  /** The files with key k, in their order in s. */
  function Group(o: Orderer, s: seq<ReviewFile>, k: SortKey): seq<ReviewFile> {
    if s == [] then []
    else Group(o, s[..|s| - 1], k) + if KeyOf(o, s[|s| - 1]) == k then [s[|s| - 1]] else []
  }

  lemma GroupSnoc(o: Orderer, s: seq<ReviewFile>, x: ReviewFile, k: SortKey)
    ensures Group(o, s + [x], k) == Group(o, s, k) + if KeyOf(o, x) == k then [x] else []
  {
    hide KeyOf;
    assert (s + [x])[..|s|] == s;
  }

  lemma {:induction false} InsertKeepsGroup(o: Orderer, t: seq<ReviewFile>, x: ReviewFile, k: SortKey)
    ensures Group(o, Insert(o, t, x), k) == Group(o, t, k) + if KeyOf(o, x) == k then [x] else []
  {
    hide KeyOf, KeyLess, Group;
    if t == [] || !KeyLess(KeyOf(o, x), KeyOf(o, t[|t| - 1])) {
      GroupSnoc(o, t, x, k);
    } else {
      var front, last := t[..|t| - 1], t[|t| - 1];
      assert t == front + [last];
      InsertKeepsGroup(o, front, x, k);
      GroupSnoc(o, front, last, k);
      GroupSnoc(o, Insert(o, front, x), last, k);
      KeyLessIsStrict(KeyOf(o, x), KeyOf(o, last));
    }
  }

  lemma {:induction false} InsertAdds(o: Orderer, t: seq<ReviewFile>, x: ReviewFile)
    ensures multiset(Insert(o, t, x)) == multiset(t) + multiset{x}
  {
    hide KeyOf, KeyLess;
    if t == [] {
    } else {
      InsertAdds(o, t[..|t| - 1], x);
      assert t == t[..|t| - 1] + [t[|t| - 1]];
    }
  }

  lemma {:induction false} InsertMembers(o: Orderer, t: seq<ReviewFile>, x: ReviewFile)
    ensures forall f <- Insert(o, t, x) :: f == x || f in t
  {
    hide KeyOf, KeyLess;
    if t == [] {
    } else {
      InsertMembers(o, t[..|t| - 1], x);
    }
  }

  /** Nothing in t comes after key k. */
  ghost predicate AllBelow(o: Orderer, t: seq<ReviewFile>, k: SortKey) {
    forall f <- t :: !KeyLess(k, KeyOf(o, f))
  }

  lemma SortedSnoc(o: Orderer, t: seq<ReviewFile>, x: ReviewFile)
    requires Sorted(o, t) && AllBelow(o, t, KeyOf(o, x))
    ensures Sorted(o, t + [x])
  {
    hide KeyOf, KeyLess;
  }

  lemma LastBelow(o: Orderer, t: seq<ReviewFile>, k: SortKey)
    requires Sorted(o, t) && t != [] && !KeyLess(k, KeyOf(o, t[|t| - 1]))
    ensures AllBelow(o, t, k)
  {
    hide KeyOf, KeyLess;
    forall i | 0 <= i < |t|
      ensures !KeyLess(k, KeyOf(o, t[i]))
    {
      KeyLessIsStrict(KeyOf(o, t[i]), KeyOf(o, t[i]));
      KeyLessTransitive(KeyOf(o, t[i]), KeyOf(o, t[|t| - 1]), k);
    }
  }

  lemma {:induction false} InsertSorted(o: Orderer, t: seq<ReviewFile>, x: ReviewFile)
    requires Sorted(o, t)
    ensures Sorted(o, Insert(o, t, x))
  {
    hide KeyOf, KeyLess, Sorted, AllBelow;
    if t == [] {
      AllBelowNothing(o, KeyOf(o, x));
      SortedSnoc(o, t, x);
    } else if !KeyLess(KeyOf(o, x), KeyOf(o, t[|t| - 1])) {
      LastBelow(o, t, KeyOf(o, x));
      SortedSnoc(o, t, x);
    } else {
      var front, last := t[..|t| - 1], t[|t| - 1];
      SortedFront(o, t);
      InsertSorted(o, front, x);
      InsertMembers(o, front, x);
      KeyLessIsStrict(KeyOf(o, x), KeyOf(o, last));
      BelowWith(o, front, Insert(o, front, x), x, KeyOf(o, last));
      SortedSnoc(o, Insert(o, front, x), last);
    }
  }

  lemma AllBelowNothing(o: Orderer, k: SortKey)
    ensures AllBelow(o, [], k)
  {
  }

  lemma SortedFront(o: Orderer, t: seq<ReviewFile>)
    requires Sorted(o, t) && t != []
    ensures Sorted(o, t[..|t| - 1]) && AllBelow(o, t[..|t| - 1], KeyOf(o, t[|t| - 1]))
  {
    hide KeyOf, KeyLess;
  }

  lemma BelowWith(o: Orderer, t: seq<ReviewFile>, u: seq<ReviewFile>, x: ReviewFile, k: SortKey)
    requires AllBelow(o, t, k) && !KeyLess(k, KeyOf(o, x)) && forall f <- u :: f == x || f in t
    ensures AllBelow(o, u, k)
  {
    hide KeyOf, KeyLess;
  }

  /** The result is a permutation of the input, in key order, and files with equal keys keep
      their order. */
  lemma {:induction false} SortIsStable(o: Orderer, files: seq<ReviewFile>, k: SortKey)
    ensures Sorted(o, Sort(o, files))
    ensures multiset(Sort(o, files)) == multiset(files)
    ensures Group(o, Sort(o, files), k) == Group(o, files, k)
  {
    hide KeyOf, KeyLess, Insert;
    if files == [] {
    } else {
      var front := files[..|files| - 1];
      assert files == front + [files[|files| - 1]];
      SortIsStable(o, front, k);
      InsertAdds(o, Sort(o, front), files[|files| - 1]);
      InsertKeepsGroup(o, Sort(o, front), files[|files| - 1], k);
      InsertSorted(o, Sort(o, front), files[|files| - 1]);
    }
  }

  ghost predicate SameGroups(o: Orderer, a: seq<ReviewFile>, b: seq<ReviewFile>) {
    forall k :: Group(o, a, k) == Group(o, b, k)
  }

  lemma {:induction false} GroupMember(o: Orderer, s: seq<ReviewFile>, k: SortKey)
    ensures Group(o, s, k) != [] <==> exists i :: 0 <= i < |s| && KeyOf(o, s[i]) == k
  {
    hide KeyOf;
    if s == [] {
    } else {
      GroupMember(o, s[..|s| - 1], k);
    }
  }

  lemma LastIsGreatest(o: Orderer, a: seq<ReviewFile>, k: SortKey)
    requires Sorted(o, a) && a != [] && Group(o, a, k) != []
    ensures !KeyLess(KeyOf(o, a[|a| - 1]), k)
  {
    hide KeyOf, KeyLess;
    GroupMember(o, a, k);
    KeyLessIsStrict(k, k);
  }

  lemma GroupLast(o: Orderer, a: seq<ReviewFile>)
    requires a != []
    ensures Group(o, a, KeyOf(o, a[|a| - 1])) == Group(o, a[..|a| - 1], KeyOf(o, a[|a| - 1])) + [a[|a| - 1]]
  {
  }

  /** There is only one stable order: two sorted lists with the same groups are the same. */
  lemma {:induction false} SortedUnique(o: Orderer, a: seq<ReviewFile>, b: seq<ReviewFile>)
    requires Sorted(o, a) && Sorted(o, b) && SameGroups(o, a, b)
    ensures a == b
  {
    hide KeyOf, KeyLess, Group;
    if a == [] || b == [] {
      EmptyGroups(o, a, b);
    } else {
      var ka, kb := KeyOf(o, a[|a| - 1]), KeyOf(o, b[|b| - 1]);
      GroupLast(o, a);
      GroupLast(o, b);
      LastIsGreatest(o, a, kb);
      LastIsGreatest(o, b, ka);
      KeyLessIsStrict(ka, kb);
      var fa, fb := a[..|a| - 1], b[..|b| - 1];
      SameLast(Group(o, fa, ka), Group(o, fb, ka), a[|a| - 1], b[|b| - 1]);
      forall k
        ensures Group(o, fa, k) == Group(o, fb, k)
      {
        if k != ka {
          GroupOther(o, a, k);
          GroupOther(o, b, k);
        }
      }
      SortedUnique(o, fa, fb);
      assert a == fa + [a[|a| - 1]] && b == fb + [b[|b| - 1]];
    }
  }

  lemma SameLast<T>(a: seq<T>, b: seq<T>, x: T, y: T)
    requires a + [x] == b + [y]
    ensures a == b && x == y
  {
    assert (a + [x])[|a + [x]| - 1] == x && (b + [y])[|b + [y]| - 1] == y;
    assert (a + [x])[..|a + [x]| - 1] == a && (b + [y])[..|b + [y]| - 1] == b;
  }

  lemma GroupOther(o: Orderer, a: seq<ReviewFile>, k: SortKey)
    requires a != [] && k != KeyOf(o, a[|a| - 1])
    ensures Group(o, a, k) == Group(o, a[..|a| - 1], k)
  {
  }

  lemma EmptyGroups(o: Orderer, a: seq<ReviewFile>, b: seq<ReviewFile>)
    requires SameGroups(o, a, b) && (a == [] || b == [])
    ensures a == b
  {
    if a != [] {
      GroupLast(o, a);
    } else if b != [] {
      GroupLast(o, b);
    }
  }

  lemma SortKeepsGroups(o: Orderer, files: seq<ReviewFile>)
    ensures SameGroups(o, Sort(o, files), files)
  {
    forall k
      ensures Group(o, Sort(o, files), k) == Group(o, files, k)
    {
      SortIsStable(o, files, k);
    }
  }

  lemma SortIsSorted(o: Orderer, files: seq<ReviewFile>)
    ensures Sorted(o, Sort(o, files)) && multiset(Sort(o, files)) == multiset(files)
  {
    SortIsStable(o, files, SortKey(0, ""));
  }

  lemma SortIdempotent(o: Orderer, files: seq<ReviewFile>)
    ensures Sort(o, Sort(o, files)) == Sort(o, files)
  {
    hide Sort, Sorted, Group;
    var s := Sort(o, files);
    SortIsSorted(o, files);
    SortIsSorted(o, s);
    SortKeepsGroups(o, s);
    SortedUnique(o, Sort(o, s), s);
  }

  // ------------------------------------------------------------------ independence of the input order

  ghost predicate DistinctPaths(s: seq<ReviewFile>) {
    forall i, j :: 0 <= i < j < |s| ==> s[i].path != s[j].path
  }

  lemma {:induction false} GroupMembers(o: Orderer, s: seq<ReviewFile>, k: SortKey)
    ensures forall f :: f in Group(o, s, k) <==> f in s && KeyOf(o, f) == k
  {
    hide KeyOf;
    if s == [] {
    } else {
      GroupMembers(o, s[..|s| - 1], k);
      assert s == s[..|s| - 1] + [s[|s| - 1]];
    }
  }

  lemma {:induction false} SmallGroups(o: Orderer, s: seq<ReviewFile>, k: SortKey)
    requires DistinctPaths(s) && !o.AsFetched?
    ensures |Group(o, s, k)| <= 1
  {
    if s != [] {
      hide KeyOf;
      var front, last := s[..|s| - 1], s[|s| - 1];
      SmallGroups(o, front, k);
      GroupMembers(o, front, k);
      if KeyOf(o, last) == k && Group(o, front, k) != [] {
        var f := Group(o, front, k)[0];
        SameKeySamePath(o, f, last);
        NoOtherPath(s, f);
      }
    }
  }

  lemma SameKeySamePath(o: Orderer, f: ReviewFile, f': ReviewFile)
    requires KeyOf(o, f) == KeyOf(o, f') && !o.AsFetched?
    ensures f.path == f'.path
  {
    hide Tier;
  }

  lemma NoOtherPath(s: seq<ReviewFile>, f: ReviewFile)
    requires DistinctPaths(s) && s != [] && f in s[..|s| - 1]
    ensures f.path != s[|s| - 1].path
  {
  }

  /** The files of a review come from the forge in some order; when their paths differ, that
      order has no influence on what the sorting orderers make of them. */
  lemma OrderOfInputIrrelevant(o: Orderer, a: seq<ReviewFile>, b: seq<ReviewFile>)
    requires multiset(a) == multiset(b) && DistinctPaths(a) && DistinctPaths(b) && !o.AsFetched?
    ensures Sort(o, a) == Sort(o, b)
  {
    hide KeyOf, Sort, Sorted, Group;
    assert forall f :: f in a <==> f in multiset(a);
    assert forall f :: f in b <==> f in multiset(b);
    forall k
      ensures Group(o, a, k) == Group(o, b, k)
    {
      SmallGroups(o, a, k);
      SmallGroups(o, b, k);
      GroupMembers(o, a, k);
      GroupMembers(o, b, k);
      SameSingleton(Group(o, a, k), Group(o, b, k));
    }
    SortIsSorted(o, a);
    SortIsSorted(o, b);
    SortKeepsGroups(o, a);
    SortKeepsGroups(o, b);
    assert SameGroups(o, Sort(o, a), Sort(o, b));
    SortedUnique(o, Sort(o, a), Sort(o, b));
  }

  lemma SameSingleton(a: seq<ReviewFile>, b: seq<ReviewFile>)
    requires |a| <= 1 && |b| <= 1 && forall f :: f in a <==> f in b
    ensures a == b
  {
    assert a != [] ==> a[0] in b;
    assert b != [] ==> b[0] in a;
  }

  // ------------------------------------------------------------------ tiers

  lemma TestsLast(files: seq<ReviewFile>, i: nat, j: nat)
    requires i < j < |files|
    ensures
      var s := Sort(EntryPointsFirst, files);
      && |s| == |files|
      && (IsTest(ToLower(s[i].path)) ==> IsTest(ToLower(s[j].path)))
  {
    hide IsTest, ToLower, Sort, Tier;
    var s := Sort(EntryPointsFirst, files);
    SortIsSorted(EntryPointsFirst, files);
    assert |multiset(s)| == |s| && |multiset(files)| == |files|;
    assert !KeyLess(KeyOf(EntryPointsFirst, s[j]), KeyOf(EntryPointsFirst, s[i]));
  }

  function OfTier(s: seq<ReviewFile>, tier: nat): seq<ReviewFile> {
    if s == [] then []
    else OfTier(s[..|s| - 1], tier) + if Tier(s[|s| - 1].path) == tier then [s[|s| - 1]] else []
  }

  lemma {:induction false} GroupsOfTier(s: seq<ReviewFile>, tier: nat, path: string)
    ensures
      Group(Alphabetical, OfTier(s, tier), SortKey(0, path)) ==
      if Tier(path) == tier then Group(EntryPointsFirst, s, SortKey(tier, path)) else []
  {
    hide Tier, Group, KeyOf;
    if s == [] {
      NoGroup(Alphabetical, SortKey(0, path));
      NoGroup(EntryPointsFirst, SortKey(tier, path));
    } else {
      var front, last := s[..|s| - 1], s[|s| - 1];
      GroupsOfTier(front, tier, path);
      assert s == front + [last];
      GroupSnoc(EntryPointsFirst, front, last, SortKey(tier, path));
      KeysOf(last);
      if Tier(last.path) == tier {
        GroupSnoc(Alphabetical, OfTier(front, tier), last, SortKey(0, path));
      } else {
        assert OfTier(front, tier) + [] == OfTier(front, tier);
      }
    }
  }

  lemma NoGroup(o: Orderer, k: SortKey)
    ensures Group(o, [], k) == []
  {
  }

  lemma KeysOf(f: ReviewFile)
    ensures KeyOf(Alphabetical, f) == SortKey(0, f.path) && KeyOf(EntryPointsFirst, f) == SortKey(Tier(f.path), f.path)
  {
    hide Tier;
  }

  lemma {:induction false} NoOtherTier(s: seq<ReviewFile>, k: SortKey)
    requires k.tier != 0
    ensures Group(Alphabetical, s, k) == []
  {
    if s == [] {
    } else {
      NoOtherTier(s[..|s| - 1], k);
    }
  }

  lemma {:induction false} OfTierMembers(s: seq<ReviewFile>, tier: nat)
    ensures forall f <- OfTier(s, tier) :: f in s && Tier(f.path) == tier
  {
    hide Tier;
    if s == [] {
    } else {
      OfTierMembers(s[..|s| - 1], tier);
    }
  }

  lemma {:induction false} TierSorted(s: seq<ReviewFile>, tier: nat)
    requires Sorted(EntryPointsFirst, s)
    ensures Sorted(Alphabetical, OfTier(s, tier))
  {
    hide Tier;
    if s == [] {
    } else {
      var front, last := s[..|s| - 1], s[|s| - 1];
      TierSorted(front, tier);
      OfTierMembers(front, tier);
      var inner := OfTier(front, tier);
      if Tier(last.path) == tier {
        forall i | 0 <= i < |inner|
          ensures !PathLess(last.path, inner[i].path)
        {
          assert inner[i] in front;
          var j :| 0 <= j < |front| && front[j] == inner[i];
          assert s[j] == inner[i] && s[|s| - 1] == last;
          assert !KeyLess(KeyOf(EntryPointsFirst, s[|s| - 1]), KeyOf(EntryPointsFirst, s[j]));
        }
      }
    }
  }

  /** Inside any one tier, entry points first is alphabetical. */
  lemma TierIsAlphabetical(files: seq<ReviewFile>, tier: nat)
    ensures OfTier(Sort(EntryPointsFirst, files), tier) == Sort(Alphabetical, OfTier(files, tier))
  {
    hide Tier, Sort, Sorted, Group, OfTier;
    var s := Sort(EntryPointsFirst, files);
    SortIsSorted(EntryPointsFirst, files);
    TierSorted(s, tier);
    SortIsSorted(Alphabetical, OfTier(files, tier));
    SortKeepsGroups(Alphabetical, OfTier(files, tier));
    forall k: SortKey
      ensures Group(Alphabetical, OfTier(s, tier), k) == Group(Alphabetical, OfTier(files, tier), k)
    {
      if k.tier == 0 {
        GroupsOfTier(s, tier, k.path);
        GroupsOfTier(files, tier, k.path);
        SortIsStable(EntryPointsFirst, files, SortKey(tier, k.path));
      } else {
        NoOtherTier(OfTier(s, tier), k);
        NoOtherTier(OfTier(files, tier), k);
      }
    }
    SortedUnique(Alphabetical, OfTier(s, tier), Sort(Alphabetical, OfTier(files, tier)));
  }

  // ------------------------------------------------------------------ the order of paths

  /** At place n, the first at which they differ, a has the smaller character. */
  ghost predicate LowerAt(a: string, b: string, n: nat) {
    n < |a| && n < |b| && a[..n] == b[..n] && a[n] < b[n]
  }

  /** a comes before b: it is a beginning of b, or lower where they first differ. */
  ghost predicate Precedes(a: string, b: string) {
    a < b || exists n :: LowerAt(a, b, n)
  }

  lemma {:induction false} PathLessIff(a: string, b: string)
    ensures PathLess(a, b) <==> Precedes(a, b)
  {
    if a == [] || b == [] {
    } else if a[0] != b[0] {
      assert a[0] < b[0] ==> LowerAt(a, b, 0);
      forall n: nat | n > 0
        ensures !LowerAt(a, b, n)
      {
        assert n < |a| && n < |b| ==> a[..n][0] == a[0] && b[..n][0] == b[0];
      }
    } else {
      var x, y := a[1..], b[1..];
      PathLessIff(x, y);
      assert a == [a[0]] + x && b == [a[0]] + y;
      if n: nat :| LowerAt(x, y, n) {
        LowerShift(a[0], x, y, n);
      }
      if n: nat :| LowerAt(a, b, n) {
        assert n > 0;
        assert a[..n][1..] == x[..n - 1] && b[..n][1..] == y[..n - 1];
        assert LowerAt(x, y, n - 1);
      }
    }
  }

  lemma LowerShift(c: char, x: string, y: string, n: nat)
    requires LowerAt(x, y, n)
    ensures LowerAt([c] + x, [c] + y, n + 1)
  {
    assert ([c] + x)[..n + 1] == [c] + x[..n] && ([c] + y)[..n + 1] == [c] + y[..n];
  }

  lemma SortedAt(o: Orderer, files: seq<ReviewFile>, i: nat, j: nat)
    requires i < j < |files|
    ensures |Sort(o, files)| == |files| && !KeyLess(KeyOf(o, Sort(o, files)[j]), KeyOf(o, Sort(o, files)[i]))
  {
    hide Sort, KeyOf, KeyLess;
    SortIsSorted(o, files);
    assert |multiset(Sort(o, files))| == |Sort(o, files)| && |multiset(files)| == |files|;
  }

  /** Alphabetical: no path comes before an earlier one of the result. */
  lemma AlphabeticalOrder(files: seq<ReviewFile>, i: nat, j: nat)
    requires i < j < |files|
    ensures
      var s := Sort(Alphabetical, files);
      |s| == |files| && !Precedes(s[j].path, s[i].path)
  {
    hide Sort, Precedes, PathLess;
    var s := Sort(Alphabetical, files);
    SortedAt(Alphabetical, files, i, j);
    PathLessIff(s[j].path, s[i].path);
  }

  /** Entry points first: no tier comes before an earlier one of the result, and inside a tier no path
      does. */
  lemma EntryPointsOrder(files: seq<ReviewFile>, i: nat, j: nat)
    requires i < j < |files|
    ensures
      var s := Sort(EntryPointsFirst, files);
      && |s| == |files| && Tier(s[i].path) <= Tier(s[j].path)
      && (Tier(s[i].path) == Tier(s[j].path) ==> !Precedes(s[j].path, s[i].path))
  {
    hide Sort, Precedes, PathLess, Tier;
    var s := Sort(EntryPointsFirst, files);
    SortedAt(EntryPointsFirst, files, i, j);
    PathLessIff(s[j].path, s[i].path);
  }

  // ------------------------------------------------------------------ what the tiers look at

  /** part occurs in p. */
  ghost predicate Has(p: string, part: string) {
    exists x, y :: p == x + part + y
  }

  ghost predicate Ends(p: string, suffix: string) {
    exists x :: p == x + suffix
  }

  lemma ContainsIff(p: string, part: string)
    ensures Contains(p, part) <==> Has(p, part)
  {
    IndexFromFacts(p, part, 0);
    if Contains(p, part) {
      var k := Index(p, part).value;
      assert p == p[..k] + part + p[k + |part|..];
    }
    if x, y :| p == x + part + y {
      assert p[|x|..] == part + y;
      assert HasPrefix(p[|x|..], part);
    }
  }

  lemma HasSuffixIff(p: string, suffix: string)
    ensures HasSuffix(p, suffix) <==> Ends(p, suffix)
  {
    if HasSuffix(p, suffix) {
      assert p == p[..|p| - |suffix|] + suffix;
    }
    if x :| p == x + suffix {
      assert p[|p| - |suffix|..] == suffix;
    }
  }

  ghost predicate HasAny(p: string, parts: seq<string>) {
    exists i :: 0 <= i < |parts| && Has(p, parts[i])
  }

  ghost predicate EndsAny(p: string, suffixes: seq<string>) {
    exists i :: 0 <= i < |suffixes| && Ends(p, suffixes[i])
  }

  lemma {:induction false} ContainsAnyIff(p: string, parts: seq<string>)
    ensures ContainsAny(p, parts) <==> HasAny(p, parts)
  {
    hide Contains, Has;
    if parts == [] {
    } else {
      ContainsIff(p, parts[0]);
      ContainsAnyIff(p, parts[1..]);
      if HasAny(p, parts[1..]) {
        var i :| 0 <= i < |parts[1..]| && Has(p, parts[1..][i]);
        assert Has(p, parts[i + 1]);
      }
      if i :| 1 <= i < |parts| && Has(p, parts[i]) {
        assert Has(p, parts[1..][i - 1]);
      }
    }
  }

  lemma {:induction false} EndsInAnyIff(p: string, suffixes: seq<string>)
    ensures EndsInAny(p, suffixes) <==> EndsAny(p, suffixes)
  {
    hide HasSuffix, Ends;
    if suffixes == [] {
    } else {
      HasSuffixIff(p, suffixes[0]);
      EndsInAnyIff(p, suffixes[1..]);
      if EndsAny(p, suffixes[1..]) {
        var i :| 0 <= i < |suffixes[1..]| && Ends(p, suffixes[1..][i]);
        assert Ends(p, suffixes[i + 1]);
      }
      if i :| 1 <= i < |suffixes| && Ends(p, suffixes[i]) {
        assert Ends(p, suffixes[1..][i - 1]);
      }
    }
  }

  /** Lower case letter by letter: A to Z become a to z, the two others with an ASCII form become
      that, and what is neither stays. */
  lemma ToLowerAt(path: string, i: nat)
    requires i < |path|
    ensures
      var c, d := path[i], ToLower(path)[i];
      && |ToLower(path)| == |path|
      && ('A' <= c <= 'Z' ==> d as int == c as int + 32 && 'a' <= d <= 'z')
      && (c == '\U{130}' ==> d == 'i') && (c == '\U{212A}' ==> d == 'k')
      && (c != '\U{130}' && c != '\U{212A}' && !('A' <= c <= 'Z') ==> d == c)
  {
  }

  /** The last tier, by what a lower-case path contains and ends in. */
  lemma TestTier(path: string)
    ensures
      var p := ToLower(path);
      Tier(path) == TEST_TIER <==>
      HasAny(p, ["/test/", "/tests/", ".test.", ".spec.", "_test.py"]) || Ends(p, "_test.go")
      || (Has(p, "test_") && Ends(p, ".py"))
  {
    hide ContainsAny, EndsInAny, HasAny, Ends, Has, ToLower, EndsAny;
    var p := ToLower(path);
    ContainsAnyIff(p, ["/test/", "/tests/", ".test.", ".spec.", "_test.py"]);
    OneEnding(p, "_test.go");
    OneEnding(p, ".py");
    OnePart(p, "test_");
  }

  lemma OneEnding(p: string, suffix: string)
    ensures EndsInAny(p, [suffix]) <==> Ends(p, suffix)
  {
    hide Ends;
    EndsInAnyIff(p, [suffix]);
    assert [suffix][0] == suffix;
  }

  lemma OnePart(p: string, part: string)
    ensures ContainsAny(p, [part]) <==> Has(p, part)
  {
    hide Has;
    ContainsAnyIff(p, [part]);
    assert [part][0] == part;
  }

  /** The other tiers, each by what it looks for in a path that no later tier has claimed. */
  lemma OtherTiers(path: string)
    ensures
      var p, t := ToLower(path), Tier(path);
      && (t < TEST_TIER ==> (t == 70 <==> Ends(p, ".md") || Has(p, "/docs/")))
      && (t < 70 ==> (t == 60 <==>
            HasAny(p, ["/config/", "/deploy/"]) || EndsAny(p, [".yaml", ".yml", "dockerfile", "makefile"])))
      && (t < 60 ==> (t == 50 <==> HasAny(p, ["/repository/", "/repositories/", "/adapter/", "/adapters/", "/dao/"])))
      && (t < 50 ==> (t == 30 <==> HasAny(p, ["/service/", "/services/", "/domain/", "/model/", "/models/"])))
      && (t < 50 && t != 30 ==> (t == 10 <==>
            HasAny(p, ["/controller/", "/controllers/", "/handler/", "/handlers/", "/route/", "/routes/", "/api/", "/cmd/"])
            || EndsAny(p, ["/main.go", "main.kt", "main.py", "index.ts", "index.js"])))
      && (t < 50 && t != 30 && t != 10 ==> t == 40)
  {
    hide ContainsAny, EndsInAny, HasAny, Ends, Has, EndsAny, ToLower, IsTest;
    var p := ToLower(path);
    OneEnding(p, ".md");
    OnePart(p, "/docs/");
    ContainsAnyIff(p, ["/config/", "/deploy/"]);
    EndsInAnyIff(p, [".yaml", ".yml", "dockerfile", "makefile"]);
    ContainsAnyIff(p, ["/repository/", "/repositories/", "/adapter/", "/adapters/", "/dao/"]);
    ContainsAnyIff(p, ["/service/", "/services/", "/domain/", "/model/", "/models/"]);
    ContainsAnyIff(p, ["/controller/", "/controllers/", "/handler/", "/handlers/", "/route/", "/routes/", "/api/", "/cmd/"]);
    EndsInAnyIff(p, ["/main.go", "main.kt", "main.py", "index.ts", "index.js"]);
  }
}
