/** The aggregation step of main.go: a histogram from branch name to the
    number of times the name occurs in the branch lists of the collected
    repositories. */
module Histogram {
  import opened Types

  /** How many times `b` occurs in `names`. */
  function Count(names: seq<string>, b: string): (n: nat)
    ensures n <= |names|
    ensures n > 0 <==> b in names
  {
    if names == [] then 0
    else
      var init := names[..|names| - 1];
      assert names == init + [names[|names| - 1]];
      Count(init, b) + (if names[|names| - 1] == b then 1 else 0)
  }

  /** How many times `b` occurs across the branch lists of all `repos`. */
  function Occurrences(repos: seq<Repository>, b: string): (n: nat) {
    if repos == [] then 0
    else Occurrences(repos[..|repos| - 1], b) + Count(repos[|repos| - 1].branches, b)
  }

  /** The total length of all branch lists. */
  function TotalBranches(repos: seq<Repository>): (total: nat) {
    if repos == [] then 0
    else TotalBranches(repos[..|repos| - 1]) + |repos[|repos| - 1].branches|
  }

  /** All branch names of all repositories, in the order the nested loops of
      getBranchCount visit them. */
  function Flatten(repos: seq<Repository>): (all: seq<string>)
    ensures |all| == TotalBranches(repos)
  {
    if repos == [] then []
    else Flatten(repos[..|repos| - 1]) + repos[|repos| - 1].branches
  }

  /** The histogram of a list of names: each name that occurs, with the number
      of times it occurs. */
  function Tally(names: seq<string>): (m: map<string, int>) {
    map b | b in names :: Count(names, b)
  }

  /** The histogram getBranchCount computes. */
  function BranchCounts(repos: seq<Repository>): (counts: map<string, int>) {
    Tally(Flatten(repos))
  }

  /** The sum of all values of a histogram. */
  ghost function SumValues(m: map<string, int>): (sum: int)
    decreases |m.Keys|
  {
    if m == map[] then 0
    else
      var k :| k in m;
      assert |(m - {k}).Keys| < |m.Keys| by {
        assert (m - {k}).Keys == m.Keys - {k};
      }
      m[k] + SumValues(m - {k})
  }

  /** getBranchCount (main.go:79-87): walk every branch of every repository
      and increment its entry (Go's map lookup gives 0 for a missing key).
      Every name in some branch list gets its number of occurrences, counted
      once per occurrence, and no other name gets an entry; the counts add up
      to the total length of the branch lists. */
  method GetBranchCount(repositories: seq<Repository>) returns (counts: map<string, int>)
    ensures counts == BranchCounts(repositories)
    ensures forall b :: b in counts <==> Occurrences(repositories, b) > 0
    ensures forall b :: b in counts ==> counts[b] == Occurrences(repositories, b)
    ensures SumValues(counts) == TotalBranches(repositories)
  {
    counts := map[];
    for i := 0 to |repositories|
      invariant counts == Tally(Flatten(repositories[..i]))
    {
      var done := Flatten(repositories[..i]);
      var branches := repositories[i].branches;
      assert done + branches[..0] == done;
      for j := 0 to |branches|
        invariant counts == Tally(done + branches[..j])
      {
        var branch := branches[j];
        TallySnoc(done + branches[..j], branch);
        assert done + branches[..j + 1] == (done + branches[..j]) + [branch];
        counts := counts[branch := (if branch in counts then counts[branch] else 0) + 1];
      }
      assert repositories[..i + 1][..i] == repositories[..i];
      assert branches[..|branches|] == branches;
    }
    assert repositories[..|repositories|] == repositories;
    BranchCountsMeaning(repositories);
    BranchCountsSum(repositories);
  }

  /** Counting over a concatenation adds the counts of the parts. */
  lemma {:induction false} CountAppend(s: seq<string>, t: seq<string>, b: string)
    ensures Count(s + t, b) == Count(s, b) + Count(t, b)
  {
    if t == [] {
      assert s + t == s;
    } else {
      var t' := t[..|t| - 1];
      assert (s + t)[..|s + t| - 1] == s + t';
      CountAppend(s, t', b);
    }
  }

  /** Counting in the flattened lists is counting list by list. */
  lemma {:induction false} FlattenCount(repos: seq<Repository>, b: string)
    ensures Count(Flatten(repos), b) == Occurrences(repos, b)
  {
    if repos != [] {
      var init := repos[..|repos| - 1];
      FlattenCount(init, b);
      CountAppend(Flatten(init), repos[|repos| - 1].branches, b);
    }
  }

  /** Appending one name to the list increments that name's entry, starting
      from 0 when it had none, and leaves every other entry as it was. */
  lemma TallySnoc(s: seq<string>, x: string)
    ensures Tally(s + [x]) == Tally(s)[x := (if x in Tally(s) then Tally(s)[x] else 0) + 1]
  {
    var before, after := Tally(s), Tally(s + [x]);
    var expected := before[x := (if x in before then before[x] else 0) + 1];
    forall b
      ensures b in after <==> b in expected
      ensures b in after ==> after[b] == expected[b]
    {
      CountAppend(s, [x], b);
      assert Count([x], b) == if x == b then 1 else 0 by {
        assert [x][..0] == [];
      }
    }
  }

  /** The keys of the histogram are exactly the names that occur in some
      branch list, each with its number of occurrences, which is at least 1. */
  lemma BranchCountsMeaning(repos: seq<Repository>)
    ensures forall b :: b in BranchCounts(repos) <==> Occurrences(repos, b) > 0
    ensures forall b :: b in BranchCounts(repos) ==> BranchCounts(repos)[b] == Occurrences(repos, b) >= 1
  {
    forall b
      ensures b in BranchCounts(repos) <==> Occurrences(repos, b) > 0
      ensures b in BranchCounts(repos) ==> BranchCounts(repos)[b] == Occurrences(repos, b)
    {
      FlattenCount(repos, b);
    }
  }

  /** A name occurs at all exactly when some repository lists it. */
  lemma {:induction false} OccurrencesPositive(repos: seq<Repository>, b: string)
    ensures Occurrences(repos, b) > 0 <==> exists i :: 0 <= i < |repos| && b in repos[i].branches
  {
    if repos != [] {
      var init := repos[..|repos| - 1];
      OccurrencesPositive(init, b);
      if exists i :: 0 <= i < |init| && b in init[i].branches {
        var i :| 0 <= i < |init| && b in init[i].branches;
        assert repos[i] == init[i];
      }
      if exists i :: 0 <= i < |repos| && b in repos[i].branches {
        var i :| 0 <= i < |repos| && b in repos[i].branches;
        if i < |init| {
          assert init[i] == repos[i];
        }
      }
    }
  }

  /** SumValues may take its keys in any order. */
  lemma {:induction false} SumValuesRemove(m: map<string, int>, k: string)
    requires k in m
    ensures SumValues(m) == m[k] + SumValues(m - {k})
    decreases |m.Keys|
  {
    var j :| j in m && SumValues(m) == m[j] + SumValues(m - {j});
    if j != k {
      assert (m - {j}).Keys == m.Keys - {j};
      assert (m - {k}).Keys == m.Keys - {k};
      SumValuesRemove(m - {j}, k);
      SumValuesRemove(m - {k}, j);
      assert (m - {j}) - {k} == (m - {k}) - {j};
    }
  }

  /** Changing one entry changes the sum by the difference. */
  lemma SumValuesUpdate(m: map<string, int>, k: string, v: int)
    ensures SumValues(m[k := v]) == SumValues(m) - (if k in m then m[k] else 0) + v
  {
    SumValuesRemove(m[k := v], k);
    if k in m {
      SumValuesRemove(m, k);
      assert m[k := v] - {k} == m - {k};
    } else {
      assert m[k := v] - {k} == m;
    }
  }

  /** The counts of a list's histogram add up to the list's length. */
  lemma {:induction false} TallySum(s: seq<string>)
    ensures SumValues(Tally(s)) == |s|
  {
    if s == [] {
      assert Tally(s) == map[];
    } else {
      var init, x := s[..|s| - 1], s[|s| - 1];
      assert s == init + [x];
      TallySum(init);
      TallySnoc(init, x);
      SumValuesUpdate(Tally(init), x, (if x in Tally(init) then Tally(init)[x] else 0) + 1);
    }
  }

  /** The histogram's counts add up to the total length of the branch lists. */
  lemma BranchCountsSum(repos: seq<Repository>)
    ensures SumValues(BranchCounts(repos)) == TotalBranches(repos)
  {
    TallySum(Flatten(repos));
  }

  /** The histogram is empty exactly when no repository lists a branch; in
      particular it is empty when there are no repositories. */
  lemma BranchCountsEmpty(repos: seq<Repository>)
    ensures BranchCounts(repos) == map[] <==> TotalBranches(repos) == 0
  {
    var all := Flatten(repos);
    if all != [] {
      assert all[0] in BranchCounts(repos);
    }
  }

  /** A non-empty histogram comes from a non-empty list of repositories, so
      the percentage loop of main.go (main.go:59-62), which runs once per
      histogram entry, never divides by a zero repository count. */
  lemma NonEmptyHistogramHasRepositories(repos: seq<Repository>)
    requires BranchCounts(repos) != map[]
    ensures |repos| > 0
  {
    BranchCountsEmpty(repos);
  }

  /** The histogram does not depend on the order of the repositories. */
  lemma {:induction false} OccurrencesPermutation(a: seq<Repository>, c: seq<Repository>, b: string)
    requires multiset(a) == multiset(c)
    ensures Occurrences(a, b) == Occurrences(c, b)
    decreases |a|
  {
    if a == [] {
      assert c == [] by {
        assert |multiset(c)| == |c|;
      }
    } else {
      var init, last := a[..|a| - 1], a[|a| - 1];
      assert a == init + [last];
      assert last in multiset(c);
      var j :| 0 <= j < |c| && c[j] == last;
      var rest := c[..j] + c[j + 1..];
      assert c == c[..j] + [last] + c[j + 1..];
      assert multiset(c) == multiset(c[..j]) + multiset{last} + multiset(c[j + 1..]);
      assert multiset(a) == multiset(init) + multiset{last};
      assert multiset(rest) == multiset(c[..j]) + multiset(c[j + 1..]);
      assert multiset(init) == multiset(a) - multiset{last};
      assert multiset(rest) == multiset(c) - multiset{last};
      OccurrencesPermutation(init, rest, b);
      OccurrencesAppend(c[..j] + [last], c[j + 1..], b);
      OccurrencesAppend(c[..j], [last], b);
      OccurrencesAppend(c[..j], c[j + 1..], b);
      assert Occurrences([last], b) == Count(last.branches, b) by {
        assert [last][..0] == [];
      }
    }
  }

  /** Occurrences over a concatenation add up. */
  lemma {:induction false} OccurrencesAppend(u: seq<Repository>, v: seq<Repository>, b: string)
    ensures Occurrences(u + v, b) == Occurrences(u, b) + Occurrences(v, b)
  {
    if v == [] {
      assert u + v == u;
    } else {
      var v' := v[..|v| - 1];
      assert (u + v)[..|u + v| - 1] == u + v';
      OccurrencesAppend(u, v', b);
    }
  }

  /** Reordering the repositories leaves the histogram unchanged. */
  lemma BranchCountsPermutation(a: seq<Repository>, c: seq<Repository>)
    requires multiset(a) == multiset(c)
    ensures BranchCounts(a) == BranchCounts(c)
  {
    BranchCountsMeaning(a);
    BranchCountsMeaning(c);
    forall b ensures Occurrences(a, b) == Occurrences(c, b) {
      OccurrencesPermutation(a, c, b);
    }
  }

  /** No repository lists a name twice. */
  predicate NoDuplicates(names: seq<string>) {
    forall i, j :: 0 <= i < j < |names| ==> names[i] != names[j]
  }

  /** A name listed at most once per repository occurs at most once. */
  lemma {:induction false} CountNoDuplicates(names: seq<string>, b: string)
    requires NoDuplicates(names)
    ensures Count(names, b) <= 1
  {
    if names != [] {
      var init, last := names[..|names| - 1], names[|names| - 1];
      CountNoDuplicates(init, b);
      if last == b {
        forall i | 0 <= i < |init| ensures init[i] != b {
          assert init[i] == names[i];
        }
      }
    }
  }

  /** When no branch list holds a name twice, every count is at most the
      number of repositories, so each printed percentage is at most 100. */
  lemma {:induction false} BranchCountsAtMostRepositories(repos: seq<Repository>)
    requires forall i :: 0 <= i < |repos| ==> NoDuplicates(repos[i].branches)
    ensures forall b :: b in BranchCounts(repos) ==> BranchCounts(repos)[b] <= |repos|
  {
    BranchCountsMeaning(repos);
    forall b ensures Occurrences(repos, b) <= |repos| {
      OccurrencesAtMost(repos, b);
    }
  }

  lemma {:induction false} OccurrencesAtMost(repos: seq<Repository>, b: string)
    requires forall i :: 0 <= i < |repos| ==> NoDuplicates(repos[i].branches)
    ensures Occurrences(repos, b) <= |repos|
  {
    if repos != [] {
      var init := repos[..|repos| - 1];
      OccurrencesAtMost(init, b);
      CountNoDuplicates(repos[|repos| - 1].branches, b);
    }
  }

  /** Without that condition the count is per occurrence: one repository
      listing `main` twice gives `main` the count 2, i.e. 200%. */
  lemma DuplicateBranchCountedTwice()
    ensures BranchCounts([Repository("r", ["main", "main"], None)]) == map["main" := 2]
  {
    var repos := [Repository("r", ["main", "main"], None)];
    assert repos[..0] == [];
    assert Flatten(repos) == ["main", "main"];
    TallySnoc(["main"], "main");
    TallySnoc([], "main");
    assert ["main"] == [] + ["main"];
    assert ["main", "main"] == ["main"] + ["main"];
    assert Tally([]) == map[];
  }
}
