/** The aggregation loops: the Counter update shared by every analyzer, and the loop
    of the URL-list analyzers that also builds one summary per repository. */
module SummaryLoop {
  import opened Counts
  import opened Shortlog
  import opened Outcomes
  import opened Aggregate
  import Ranking

  /** `for author, count in contributors.items(): all_contributors[author] += count` */
  method MergeCounts(acc: Tally, t: Tally) returns (r: Tally)
    ensures r == Merge(acc, t)
  {
    r := acc;
    var i := 0;
    while i < |t|
      invariant 0 <= i <= |t|
      invariant r == Merge(acc, t[..i])
    {
      assert t[..i + 1][..i] == t[..i];
      r := Add(r, t[i].0, t[i].1);
      i := i + 1;
    }
    assert t[..i] == t;
  }

  /** The analyze loop of the URL-list GUI and of the multi-repository tool: every
      non-empty mapping is merged into `all_contributors` and summarised; an empty one
      (a failure, or a repository without authors) is skipped. */
  method CollectSummaries(urls: seq<string>, runs: seq<GitRun>, fetch: (string, GitRun) -> (Tally, string))
    returns (all: Tally, summaries: seq<RepoSummary>)
    requires |urls| == |runs|
    ensures all == MergeAll(Mappings(Fetched(urls, runs, fetch)))
    ensures summaries == Successes(SummaryOutcomes(urls, Fetched(urls, runs, fetch)))
  {
    ghost var fs := Fetched(urls, runs, fetch);
    all := [];
    summaries := [];
    var i := 0;
    while i < |urls|
      invariant 0 <= i <= |urls|
      invariant all == MergeAll(Mappings(fs[..i]))
      invariant summaries == Successes(SummaryOutcomes(urls[..i], fs[..i]))
    {
      var fetched := fetch(urls[i], runs[i]);
      var contributors := fetched.0;
      CollectStep(urls, runs, fetch, i);
      if contributors != [] {
        all := MergeCounts(all, contributors);
        summaries := summaries + [SummaryOf(fetched.1, urls[i], contributors)];
      }
      i := i + 1;
    }
    assert fs[..i] == fs;
    assert urls[..i] == urls;
  }

  /** The view `display_results` shows for the loop's results. */
  method ShowResults(all: Tally, summaries: seq<RepoSummary>) returns (v: SummaryView)
    ensures v == ViewOf(all, summaries)
  {
    if all == [] {
      return NoContributors;
    }
    var sorted := Ranking.SortDesc(all, Ranking.Count);
    v := Results(Ranking.Take(sorted, 10), |summaries|, |all|, Sum(all), summaries);
  }
}
