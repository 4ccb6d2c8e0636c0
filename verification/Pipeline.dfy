/** How collection and aggregation fit together in main (main.go:45-62): the
    fetch units' messages arrive in an order nobody controls, the collector
    keeps the successful ones, and the histogram is built from those. */
module Pipeline {
  import opened Types
  import opened Collect
  import opened Histogram

  /** Whatever order the messages arrive in, the collector keeps the same
      repositories up to order, so the histogram and the number of successful
      repositories (the percentage denominator) are the same. */
  lemma HistogramIndependentOfArrivalOrder(a: seq<Repository>, c: seq<Repository>)
    requires multiset(a) == multiset(c)
    ensures multiset(Successful(a)) == multiset(Successful(c))
    ensures |Successful(a)| == |Successful(c)|
    ensures BranchCounts(Successful(a)) == BranchCounts(Successful(c))
  {
    SuccessfulMultiset(a);
    SuccessfulMultiset(c);
    assert multiset(Successful(a)) == multiset(Successful(c));
    assert |multiset(Successful(a))| == |Successful(a)|;
    assert |multiset(Successful(c))| == |Successful(c)|;
    BranchCountsPermutation(Successful(a), Successful(c));
  }

  /** A repository whose fetch failed contributes to no count and not to the
      denominator: the outcome is as if its message had never been sent. */
  lemma FailedFetchNotCounted(a: seq<Repository>, failed: Repository, b: seq<Repository>)
    requires failed.error.Some?
    ensures BranchCounts(Successful(a + [failed] + b)) == BranchCounts(Successful(a + b))
    ensures |Successful(a + [failed] + b)| == |Successful(a + b)|
  {
    FailedMessageIgnored(a, failed, b);
  }

  /** Repository `a` lists `main` and `dev`, the fetch for `b` fails: only `a`
      is kept and both names are counted once. */
  lemma OneFailureScenario(reason: string)
    ensures var ra := Repository("a", ["main", "dev"], None);
            var rb := Repository("b", [], Some(TransportError(reason)));
            && Successful([ra, rb]) == [ra]
            && Successful([rb, ra]) == [ra]
            && BranchCounts([ra]) == map["main" := 1, "dev" := 1]
  {
    var ra := Repository("a", ["main", "dev"], None);
    var rb := Repository("b", [], Some(TransportError(reason)));
    FailedMessageIgnored([ra], rb, []);
    FailedMessageIgnored([], rb, [ra]);
    assert [ra] + [rb] + [] == [ra, rb] && [ra] + [] == [ra];
    assert [] + [rb] + [ra] == [rb, ra] && [] + [ra] == [ra];
    assert Successful([ra]) == [ra] by {
      assert [ra][..0] == [];
    }
    assert [ra][..0] == [];
    assert Flatten([ra]) == ["main", "dev"];
    TallySnoc([], "main");
    TallySnoc(["main"], "dev");
    assert [] + ["main"] == ["main"] && ["main"] + ["dev"] == ["main", "dev"];
    assert Tally([]) == map[];
  }

  /** Two successful repositories both list `main`, one also `feature`:
      `main` is counted twice and `feature` once. */
  lemma TwoSuccessesScenario()
    ensures var r1 := Repository("one", ["main"], None);
            var r2 := Repository("two", ["main", "feature"], None);
            && Successful([r1, r2]) == [r1, r2]
            && BranchCounts([r1, r2]) == map["main" := 2, "feature" := 1]
  {
    var r1 := Repository("one", ["main"], None);
    var r2 := Repository("two", ["main", "feature"], None);
    assert [r1, r2][..1] == [r1] && [r1][..0] == [];
    assert Successful([r1]) == [r1];
    assert Flatten([r1]) == ["main"];
    assert Flatten([r1, r2]) == ["main", "main", "feature"];
    assert Tally([]) == map[];
    TallySnoc([], "main");
    assert [] + ["main"] == ["main"];
    assert Tally(["main"]) == map["main" := 1];
    TallySnoc(["main"], "main");
    assert ["main"] + ["main"] == ["main", "main"];
    assert Tally(["main", "main"]) == map["main" := 2];
    TallySnoc(["main", "main"], "feature");
    assert ["main", "main"] + ["feature"] == ["main", "main", "feature"];
  }
}
