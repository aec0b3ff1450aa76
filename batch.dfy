/** The batch tool: repositories named on the command line, shorthands completed, the
    mappings merged into one Counter and its ten most common authors. */
module Batch {
  import opened PyStr
  import opened Counts
  import opened Shortlog
  import opened Ranking
  import opened RepoNames
  import opened RepoAnalysis
  import SummaryLoop

  /** The `most_common` count of `main`. */
  const TopN: nat := 10

  /** The URL list of `main`: every argument completed, none dropped. */
  method CompleteArgs(args: seq<string>) returns (urls: seq<string>)
    ensures |urls| == |args|
    ensures forall i :: 0 <= i < |args| ==> urls[i] == ShorthandUrl(args[i])
  {
    urls := [];
    var i := 0;
    while i < |args|
      invariant 0 <= i <= |args|
      invariant |urls| == i
      invariant forall j :: 0 <= j < i ==> urls[j] == ShorthandUrl(args[j])
    {
      urls := urls + [ShorthandUrl(args[i])];
      i := i + 1;
    }
  }

  /** An argument is either kept or prefixed with the GitHub URL; the result starts
      with `http` unless the argument had no slash, and completing twice changes
      nothing. */
  lemma ShorthandSpec(arg: string)
    ensures ShorthandUrl(arg) == arg || ShorthandUrl(arg) == GithubPrefix + arg
    ensures StartsWith(ShorthandUrl(arg), "http") || '/' !in arg
    ensures ShorthandUrl(ShorthandUrl(arg)) == ShorthandUrl(arg)
  {
    CompletedIsGithub(arg);
    ShorthandIdempotent(arg);
  }

  /** The merge loop: `all_contributors[author] += count` for every mapping, an empty
      one (a failed repository) included. */
  method MergeRuns(runs: seq<GitRun>) returns (all: Tally)
    ensures all == MergeAll(RunMappings(runs))
  {
    all := [];
    var i := 0;
    while i < |runs|
      invariant 0 <= i <= |runs|
      invariant all == MergeAll(RunMappings(runs[..i]))
    {
      var c := FetchMapping(runs[i]);
      assert runs[..i + 1][..i] == runs[..i];
      assert RunMappings(runs[..i + 1]) == RunMappings(runs[..i]) + [c];
      assert (RunMappings(runs[..i]) + [c])[..i] == RunMappings(runs[..i]);
      all := SummaryLoop.MergeCounts(all, c);
      i := i + 1;
    }
    assert runs[..i] == runs;
  }

  /** A run of `main`: the usage text when no argument is given, otherwise the URLs,
      the leaderboard and the two totals. */
  datatype BatchRun = Usage | Analyzed(urls: seq<string>, top: Tally, unique: nat, commits: int)

  /** `main`, with the arguments after the program name and one pair of `git` runs
      per argument. */
  method Run(args: seq<string>, runs: seq<GitRun>) returns (r: BatchRun)
    requires |runs| == |args|
    ensures r.Usage? <==> args == []
    ensures r.Analyzed? ==>
      && |r.urls| == |args|
      && (forall i :: 0 <= i < |args| ==> r.urls[i] == ShorthandUrl(args[i]))
      && r.top == Leaderboard(MergeAll(RunMappings(runs)), TopN)
      && r.unique == |MergeAll(RunMappings(runs))|
      && r.commits == Sum(MergeAll(RunMappings(runs)))
  {
    if |args| < 1 {
      return Usage;
    }
    var urls := CompleteArgs(args);
    var all := MergeRuns(runs);
    var top := Take(SortDesc(all, Count), TopN);
    r := Analyzed(urls, top, |all|, Sum(all));
  }

  /** What a batch run reports: the unique contributors are the authors of all
      repositories, the commits their total, and the leaderboard at most ten of the
      merged entries in non-increasing count order, led by the top author, with ties
      in first-encountered order. */
  lemma BatchSpec(runs: seq<GitRun>, k: int)
    ensures var all := MergeAll(RunMappings(runs));
      var top := Leaderboard(all, TopN);
      && |all| == |UnionKeys(RunMappings(runs))|
      && Sum(all) == TotalOver(RunMappings(runs))
      && |top| <= TopN
      && Descending(top, Count)
      && (forall i :: 0 <= i < |top| ==> top[i] in all)
      && (all != [] ==> top[0] == all[ArgMax(all)])
      && WithKey(top, Count, k) <= WithKey(all, Count, k)
  {
    var all := MergeAll(RunMappings(runs));
    MergeAllSpec(RunMappings(runs));
    LeaderboardSpec(all, TopN);
    LeaderboardStable(all, TopN, k);
  }

  /** A failed repository (its mapping is `{}`) changes nothing in the merge. */
  lemma FailedAddsNothing(runs: seq<GitRun>, run: GitRun)
    requires MappingOf(run) == []
    ensures MergeAll(RunMappings(runs + [run])) == MergeAll(RunMappings(runs))
  {
    assert (runs + [run])[..|runs|] == runs;
  }
}
