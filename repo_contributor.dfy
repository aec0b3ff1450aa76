/** The command-line analyzer of local repositories: every repository with a non-empty
    mapping is kept with its details and merged into one Counter; the printout ranks
    the authors and sorts the kept repositories by their commit totals, and the JSON
    summary lists every author in descending order. */
module RepoContributor {
  import opened Optional
  import opened Counts
  import opened Ranking
  import opened Shortlog
  import opened RepoAnalysis
  import opened Outcomes
  import opened Aggregate
  import SummaryLoop

  /** What `get_repo_info` reports of a repository. Its `git` queries are not part of
      this model, so the record is an input: `totalCommits` is the `rev-list --count`
      value (0 when that query fails). */
  datatype RepoInfo = RepoInfo(name: string, path: string, totalCommits: int, branch: string, remote: string)

  /** An entry of `repo_details`: the info with `contributors` and `top_contributor`
      added. */
  datatype RepoDetail = RepoDetail(info: RepoInfo, contributors: Tally, top: Entry)

  /** `repo_info['total_commits']`, the key of the breakdown sort. */
  function TotalOf(d: RepoDetail): int { d.info.totalCommits }

  /** One repository of the loop: kept with its details exactly when
      `get_git_contributors` gave a non-empty mapping. */
  function DetailOutcome(info: RepoInfo, run: GitRun): Option<RepoDetail> {
    var c := MappingOf(run);
    if c != [] then Some(RepoDetail(info, c, c[ArgMax(c)])) else None
  }

  function DetailOutcomes(infos: seq<RepoInfo>, runs: seq<GitRun>): (os: seq<Option<RepoDetail>>)
    requires |infos| == |runs|
    ensures |os| == |infos|
  {
    if infos == [] then []
    else
      var n := |infos| - 1;
      DetailOutcomes(infos[..n], runs[..n]) + [DetailOutcome(infos[n], runs[n])]
  }

  /** The mappings of the kept repositories, in order. */
  function DetailMappings(ds: seq<RepoDetail>): (ts: seq<Tally>)
    ensures |ts| == |ds|
  {
    if ds == [] then [] else DetailMappings(ds[..|ds| - 1]) + [ds[|ds| - 1].contributors]
  }

  /** A repository is kept exactly when its mapping is non-empty; it keeps its info
      and mapping, and its top contributor is a pair of the mapping with the largest
      count, the first such pair. */
  lemma DetailOutcomeSpec(info: RepoInfo, run: GitRun)
    ensures DetailOutcome(info, run).Some? <==> MappingOf(run) != []
    ensures DetailOutcome(info, run).Some? ==>
      var d := DetailOutcome(info, run).value;
      var c := MappingOf(run);
      && d.info == info && d.contributors == c
      && (exists k :: 0 <= k < |c| && c[k] == d.top
            && (forall j :: 0 <= j < |c| ==> c[j].1 <= d.top.1)
            && (forall j :: 0 <= j < k ==> c[j].1 < d.top.1))
  {
    var c := MappingOf(run);
    if c != [] {
      var k := ArgMax(c);
      assert c[k] == DetailOutcome(info, run).value.top;
    }
  }

  /** One more repository: the Counter merges its mapping and the details gain it
      when it is kept. */
  lemma DetailStep(infos: seq<RepoInfo>, runs: seq<GitRun>, i: nat)
    requires |infos| == |runs| && i < |infos|
    ensures MergeAll(RunMappings(runs[..i + 1])) == Merge(MergeAll(RunMappings(runs[..i])), MappingOf(runs[i]))
    ensures var o := DetailOutcome(infos[i], runs[i]);
      Successes(DetailOutcomes(infos[..i + 1], runs[..i + 1]))
      == Successes(DetailOutcomes(infos[..i], runs[..i])) + (if o.Some? then [o.value] else [])
  {
    assert runs[..i + 1][..i] == runs[..i];
    assert infos[..i + 1][..i] == infos[..i];
    MergeAllSnoc(RunMappings(runs[..i]), MappingOf(runs[i]));
    var prior := DetailOutcomes(infos[..i], runs[..i]);
    var o := DetailOutcome(infos[i], runs[i]);
    assert DetailOutcomes(infos[..i + 1], runs[..i + 1]) == prior + [o];
    assert (prior + [o])[..|prior|] == prior;
  }

  /** The Counter is the merge of the kept repositories' mappings: a skipped
      repository has an empty mapping and adds nothing. */
  lemma {:induction false} KeptMerge(infos: seq<RepoInfo>, runs: seq<GitRun>)
    requires |infos| == |runs|
    ensures MergeAll(RunMappings(runs)) == MergeAll(DetailMappings(Successes(DetailOutcomes(infos, runs))))
  {
    if infos != [] {
      var n := |infos| - 1;
      KeptMerge(infos[..n], runs[..n]);
      var prior := DetailOutcomes(infos[..n], runs[..n]);
      var o := DetailOutcome(infos[n], runs[n]);
      var s := Successes(prior);
      var m := MappingOf(runs[n]);
      var ts := RunMappings(runs);
      assert ts == RunMappings(runs[..n]) + [m];
      assert ts[..n] == RunMappings(runs[..n]);
      assert MergeAll(ts) == Merge(MergeAll(RunMappings(runs[..n])), m);
      assert DetailOutcomes(infos, runs) == prior + [o];
      assert (prior + [o])[..n] == prior;
      if o.Some? {
        assert Successes(prior + [o]) == s + [o.value];
        var ms := DetailMappings(s + [o.value]);
        assert (s + [o.value])[..|s|] == s;
        assert ms == DetailMappings(s) + [m];
        assert ms[..|s|] == DetailMappings(s);
      } else {
        assert m == [];
        assert Successes(prior + [o]) == s;
      }
    }
  }

  /** The returned dict holds exactly the authors of the kept repositories, each with
      the sum of its counts over them. */
  lemma KeptKeys(infos: seq<RepoInfo>, runs: seq<GitRun>)
    requires |infos| == |runs|
    ensures var all := MergeAll(RunMappings(runs));
      var ts := DetailMappings(Successes(DetailOutcomes(infos, runs)));
      && UniqueKeys(all)
      && KeySet(all) == UnionKeys(ts)
      && forall a :: Get(all, a) == SumOver(ts, a)
  {
    KeptMerge(infos, runs);
    MergeAllSpec(DetailMappings(Successes(DetailOutcomes(infos, runs))));
  }

  /** No author exactly when no repository was kept. */
  lemma NoContributorsNoDetails(infos: seq<RepoInfo>, runs: seq<GitRun>)
    requires |infos| == |runs|
    ensures MergeAll(RunMappings(runs)) == [] <==> Successes(DetailOutcomes(infos, runs)) == []
  {
    var os := DetailOutcomes(infos, runs);
    MergeAllEmpty(RunMappings(runs));
    NoSuccesses(os);
    forall i | 0 <= i < |runs| ensures os[i].None? <==> RunMappings(runs)[i] == [] {
      RunMappingsAt(runs, i);
      DetailOutcomesAt(infos, runs, i);
    }
  }

  lemma {:induction false} DetailOutcomesAt(infos: seq<RepoInfo>, runs: seq<GitRun>, i: nat)
    requires |infos| == |runs| && i < |infos|
    ensures DetailOutcomes(infos, runs)[i] == DetailOutcome(infos[i], runs[i])
    decreases |infos|
  {
    var n := |infos| - 1;
    var prior := DetailOutcomes(infos[..n], runs[..n]);
    var last := DetailOutcome(infos[n], runs[n]);
    var os := DetailOutcomes(infos, runs);
    assert os == prior + [last];
    if i < n {
      DetailOutcomesAt(infos[..n], runs[..n], i);
      assert infos[..n][i] == infos[i] && runs[..n][i] == runs[i];
      assert prior[i] == DetailOutcome(infos[i], runs[i]);
      assert os[i] == prior[i];
      assert os[i] == DetailOutcome(infos[i], runs[i]);
    } else {
      assert i == n;
      assert os[n] == last;
      assert os[i] == DetailOutcome(infos[i], runs[i]);
    }
  }

  /** `analyze_repositories`: the Counter over all repositories and the details of the
      kept ones, in input order. */
  method AnalyzeRepositories(infos: seq<RepoInfo>, runs: seq<GitRun>) returns (all: Tally, details: seq<RepoDetail>)
    requires |infos| == |runs|
    ensures all == MergeAll(RunMappings(runs))
    ensures details == Successes(DetailOutcomes(infos, runs))
  {
    all := [];
    details := [];
    var i := 0;
    while i < |infos|
      invariant 0 <= i <= |infos|
      invariant all == MergeAll(RunMappings(runs[..i]))
      invariant details == Successes(DetailOutcomes(infos[..i], runs[..i]))
    {
      DetailStep(infos, runs, i);
      var contributors := FetchMapping(runs[i]);
      if contributors != [] {
        all := SummaryLoop.MergeCounts(all, contributors);
        var k := ArgMax(contributors);
        details := details + [RepoDetail(infos[i], contributors, contributors[k])];
      }
      i := i + 1;
    }
    assert infos[..i] == infos && runs[..i] == runs;
  }

  // ---------------------------------------------------------------------------
  // The printout and the saved summary

  /** What `print_results` shows: only a notice without contributors; otherwise the
      first 20 authors of the descending sort and the breakdown sorted by commit
      totals. */
  datatype Printout = NoContributors | Printed(top: Tally, repos: seq<RepoDetail>)

  function PrintoutOf(all: Tally, details: seq<RepoDetail>): Printout {
    if all == [] then Printout.NoContributors else Printed(Leaderboard(all, 20), SortDesc(details, TotalOf))
  }

  /** The caller's `repo_details` after `print_results`: sorted in place by
      `repo_details.sort`, which the early return for an empty Counter skips. */
  function AfterPrint(all: Tally, details: seq<RepoDetail>): seq<RepoDetail> {
    if all == [] then details else SortDesc(details, TotalOf)
  }

  /** `print_results`; the in-place sort is returned as the list's new value. */
  method PrintResults(all: Tally, details: seq<RepoDetail>) returns (p: Printout, sorted: seq<RepoDetail>)
    ensures p == PrintoutOf(all, details)
    ensures sorted == AfterPrint(all, details)
  {
    if all == [] {
      return Printout.NoContributors, details;
    }
    var ranked := SortDesc(all, Count);
    sorted := SortDesc(details, TotalOf);
    p := Printed(Take(ranked, 20), sorted);
  }

  /** The printout lists `min(20, n)` of the Counter's pairs in non-increasing order,
      headed by its `max` pair; the breakdown and the caller's list afterwards are the
      same repositories in non-increasing commit order, and repositories with equal
      totals keep their order. */
  lemma PrintResultsSpec(all: Tally, details: seq<RepoDetail>)
    ensures PrintoutOf(all, details).NoContributors? <==> all == []
    ensures var p := PrintoutOf(all, details);
      p.Printed? ==>
        && |p.top| == (if 20 < |all| then 20 else |all|)
        && Descending(p.top, Count)
        && (forall i :: 0 <= i < |p.top| ==> p.top[i] in all)
        && p.top[0] == all[ArgMax(all)]
        && p.repos == AfterPrint(all, details)
    ensures var after := AfterPrint(all, details);
      && multiset(after) == multiset(details)
      && (all != [] ==> Descending(after, TotalOf))
      && (forall k :: WithKey(after, TotalOf, k) == WithKey(details, TotalOf, k))
  {
    LeaderboardSpec(all, 20);
    SortDescSpec(details, TotalOf);
    forall k ensures WithKey(AfterPrint(all, details), TotalOf, k) == WithKey(details, TotalOf, k) {
      SortDescStable(details, TotalOf, k);
    }
  }

  /** The `data` dict of `save_to_json`, without the date. */
  datatype JsonSummary = JsonSummary(totalRepositories: nat, uniqueContributors: nat,
                                     topContributors: Tally, repositories: seq<RepoDetail>)

  function JsonOf(all: Tally, details: seq<RepoDetail>): JsonSummary {
    JsonSummary(|details|, |all|, SortDesc(all, Count), details)
  }

  // ---------------------------------------------------------------------------
  // The tool

  /** A run of `main`: nothing when no repository was found; otherwise the printout,
      the saved summary when an output file was named, and the number analysed. */
  datatype ToolRun = NoRepos | Done(printout: Printout, json: Option<JsonSummary>, analyzed: nat)

  /** `main` over the repositories `find_git_repos` found (their paths, infos and
      runs are the inputs). */
  method Analyze(infos: seq<RepoInfo>, runs: seq<GitRun>, output: bool) returns (r: ToolRun)
    requires |infos| == |runs|
    ensures r.NoRepos? <==> infos == []
    ensures r.Done? ==>
      var all := MergeAll(RunMappings(runs));
      var details := Successes(DetailOutcomes(infos, runs));
      r == Done(PrintoutOf(all, details),
                if output then Some(JsonOf(all, AfterPrint(all, details))) else None,
                |details|)
  {
    if infos == [] {
      return NoRepos;
    }
    var all, details := AnalyzeRepositories(infos, runs);
    var p, sorted := PrintResults(all, details);
    var json := None;
    if output {
      json := Some(JsonOf(all, sorted));
    }
    r := Done(p, json, |sorted|);
    assert |sorted| == |details| by { SortDescSpec(details, TotalOf); }
  }

  /** The saved summary of a run counts the kept repositories and the distinct authors
      of the kept repositories, lists every pair of the Counter in non-increasing
      order, and, because `print_results` sorted the shared list first, lists the
      repositories in non-increasing commit order. */
  lemma JsonSpec(infos: seq<RepoInfo>, runs: seq<GitRun>)
    requires |infos| == |runs|
    ensures var all := MergeAll(RunMappings(runs));
      var details := Successes(DetailOutcomes(infos, runs));
      var j := JsonOf(all, AfterPrint(all, details));
      && j.totalRepositories == |details|
      && j.uniqueContributors == |UnionKeys(DetailMappings(details))|
      && multiset(j.topContributors) == multiset(all)
      && Descending(j.topContributors, Count)
      && multiset(j.repositories) == multiset(details)
      && Descending(j.repositories, TotalOf)
  {
    var all := MergeAll(RunMappings(runs));
    var details := Successes(DetailOutcomes(infos, runs));
    KeptKeys(infos, runs);
    UniqueKeysSize(all);
    SortDescSpec(all, Count);
    SortDescSpec(details, TotalOf);
    NoContributorsNoDetails(infos, runs);
  }
}
