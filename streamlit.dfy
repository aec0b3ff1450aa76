/** The Streamlit version (`top_contributors_streamlit.py`): the batch loop that fills
    the session state, the unique-contributor and commit totals, the cross-repository
    aggregate and the JSON export summary. */
module Streamlit {
  import opened Optional
  import opened Counts
  import opened Ranking
  import opened Shortlog
  import opened Classifier
  import opened Outcomes
  import opened RepoAnalysis
  import opened SummaryLoop
  import Aggregate

  /** The part of `st.session_state` the analysis writes. `analysed` says whether
      `successful_repos` has been stored at all. */
  class Session {
    var analysisResults: map<string, RepoResult>
    var successfulRepos: seq<RepoResult>
    var failedRepos: seq<string>
    var analysed: bool

    constructor ()
      ensures analysisResults == map[] && successfulRepos == [] && failedRepos == [] && !analysed
    {
      analysisResults := map[];
      successfulRepos := [];
      failedRepos := [];
      analysed := false;
    }

    /** The Analyze button, given the cleaned names and each name's git runs: every
        name is analysed in order; a result goes to the successful list and to
        `analysis_results[name]`, a failure to the failed list. The button does
        nothing without names. */
    method AnalyzeRepositories(names: seq<string>, runs: seq<GitRun>)
      requires |names| == |runs|
      modifies this
      ensures names == [] ==> unchanged(this)
      ensures names != [] ==>
        && successfulRepos == Successes(RepoOutcomes(names, runs))
        && failedRepos == Failures(names, RepoOutcomes(names, runs))
        && analysisResults == Recorded(old(analysisResults), names, RepoOutcomes(names, runs))
        && analysed
    {
      if names == [] {
        return;
      }
      ghost var os := RepoOutcomes(names, runs);
      ghost var before := analysisResults;
      var successful: seq<RepoResult> := [];
      var failed: seq<string> := [];
      var i := 0;
      while i < |names|
        invariant 0 <= i <= |names|
        invariant successful == Successes(os[..i])
        invariant failed == Failures(names[..i], os[..i])
        invariant analysisResults == Recorded(before, names[..i], os[..i])
      {
        var result := AnalyzeSingleRepo(names[i], runs[i]);
        RepoOutcomesAt(names, runs, i);
        OutcomesSnoc(names, os, i);
        RecordedSnoc(before, names, os, i);
        if result.Some? {
          successful := successful + [result.value];
          analysisResults := analysisResults[names[i] := result.value];
        } else {
          failed := failed + [names[i]];
        }
        i := i + 1;
      }
      assert names[..i] == names;
      assert os[..i] == os;
      successfulRepos := successful;
      failedRepos := failed;
      analysed := true;
    }
  }

  /** Each name lands in exactly one list: the successful results' names and the
      failed names are together the requested names, and the two lists' lengths add up
      to the number of names. */
  lemma BatchPartition(names: seq<string>, runs: seq<GitRun>)
    requires |names| == |runs|
    ensures var os := RepoOutcomes(names, runs);
      |Successes(os)| + |Failures(names, os)| == |names|
      && multiset(Names(Successes(os), (r: RepoResult) => r.name)) + multiset(Failures(names, os))
         == multiset(names)
  {
    var os := RepoOutcomes(names, runs);
    RepoOutcomesNamed(names, runs);
    PartitionSizes(names, os);
    PartitionNames(names, os, (r: RepoResult) => r.name);
  }

  /** A name whose last analysis in the batch succeeded has that result recorded; a
      name outside the batch keeps its earlier result. */
  lemma {:induction false} ResultsOverwritten(m: map<string, RepoResult>, names: seq<string>, runs: seq<GitRun>, k: nat, a: string)
    requires |names| == |runs| && k < |names|
    requires RepoOutcome(names[k], runs[k]).Some?
    requires forall j :: k < j < |names| && names[j] == names[k] ==> RepoOutcome(names[j], runs[j]).None?
    ensures names[k] in Recorded(m, names, RepoOutcomes(names, runs))
    ensures Recorded(m, names, RepoOutcomes(names, runs))[names[k]] == RepoOutcome(names[k], runs[k]).value
    ensures a !in names && a in m ==>
      a in Recorded(m, names, RepoOutcomes(names, runs)) && Recorded(m, names, RepoOutcomes(names, runs))[a] == m[a]
  {
    var os := RepoOutcomes(names, runs);
    RepoOutcomesAt(names, runs, k);
    forall j | k < j < |names| && names[j] == names[k] ensures os[j].None? {
      RepoOutcomesAt(names, runs, j);
    }
    RecordedLast(m, names, os, k);
    if a !in names {
      assert forall i :: 0 <= i < |os| ==> names[i] != a;
      RecordedKeys(m, names, os, a);
    }
  }

  // ---------------------------------------------------------------------------
  // Totals and the aggregate over the successful results

  /** `len(set(author for repo in successful_repos for author in repo['contributors']))` */
  function UniqueContributors(rs: seq<RepoResult>): nat {
    |UnionKeys(Contributions(rs))|
  }

  /** The aggregation loops: `all_contributors[author] += commits` when the author is
      already there, `= commits` otherwise, which is the Counter update. */
  method AggregateContributors(rs: seq<RepoResult>) returns (all: Tally)
    ensures all == MergeAll(Contributions(rs))
  {
    all := [];
    var i := 0;
    while i < |rs|
      invariant 0 <= i <= |rs|
      invariant all == MergeAll(Contributions(rs[..i]))
    {
      ContributionsAt(rs, i);
      Aggregate.MergeAllSnoc(Contributions(rs[..i]), rs[i].contributors);
      all := MergeCounts(all, rs[i].contributors);
      i := i + 1;
    }
    assert rs[..i] == rs;
  }

  /** The aggregate's authors are the unique contributors, so `len(all_contributors)`
      is the unique-contributor metric; each author's count adds up its counts in all
      successful repositories. */
  lemma AggregateSpec(rs: seq<RepoResult>)
    ensures |MergeAll(Contributions(rs))| == UniqueContributors(rs)
    ensures KeySet(MergeAll(Contributions(rs))) == UnionKeys(Contributions(rs))
    ensures forall a :: Get(MergeAll(Contributions(rs)), a) == SumOver(Contributions(rs), a)
  {
    MergeAllSpec(Contributions(rs));
  }

  /** The commit metric adds up the repositories' running totals, which count a
      repeated shortlog author twice; where every result's total is the sum of its
      dict, the metric is the aggregate's total. */
  lemma {:induction false} TotalCommitsAggregate(rs: seq<RepoResult>)
    requires forall i :: 0 <= i < |rs| ==> rs[i].totalCommits == Sum(rs[i].contributors)
    ensures TotalCommits(rs) == Sum(MergeAll(Contributions(rs)))
  {
    MergeAllSpec(Contributions(rs));
    TotalCommitsOver(rs);
  }

  lemma {:induction false} TotalCommitsOver(rs: seq<RepoResult>)
    requires forall i :: 0 <= i < |rs| ==> rs[i].totalCommits == Sum(rs[i].contributors)
    ensures TotalCommits(rs) == TotalOver(Contributions(rs))
  {
    if rs != [] {
      var n := |rs| - 1;
      assert forall i :: 0 <= i < n ==> rs[..n][i] == rs[i];
      TotalCommitsOver(rs[..n]);
      assert Contributions(rs)[..n] == Contributions(rs[..n]);
    }
  }

  /** The commit metric is at least the total of the dicts when every result's running
      total is at least its dict's total. */
  lemma {:induction false} TotalCommitsAtLeast(rs: seq<RepoResult>)
    requires forall i :: 0 <= i < |rs| ==> rs[i].totalCommits >= Sum(rs[i].contributors)
    ensures TotalOver(Contributions(rs)) <= TotalCommits(rs)
  {
    if rs != [] {
      var n := |rs| - 1;
      assert forall i :: 0 <= i < n ==> rs[..n][i] == rs[i];
      TotalCommitsAtLeast(rs[..n]);
      assert Contributions(rs)[..n] == Contributions(rs[..n]);
    }
  }

  /** Over results with positive counts, every aggregated count is positive and at
      most the commit metric. */
  lemma AggregateBounds(rs: seq<RepoResult>)
    requires forall i :: 0 <= i < |rs| ==> PositiveResult(rs[i])
    ensures forall x :: x in MergeAll(Contributions(rs)) ==> 0 < x.1 <= TotalCommits(rs)
  {
    var ts := Contributions(rs);
    var all := MergeAll(ts);
    forall i | 0 <= i < |ts| ensures Positive(ts[i]) { ContributionsAt(rs, i); }
    forall i | 0 <= i < |rs| ensures rs[i].totalCommits >= Sum(rs[i].contributors) { }
    TotalCommitsAtLeast(rs);
    MergeAllSpec(ts);
    forall x | x in all ensures 0 < x.1 <= TotalCommits(rs) {
      var j :| 0 <= j < |all| && all[j] == x;
      GetAt(all, j);
      KeySetIndex(all, x.0);
      SumOverBounds(ts, x.0);
    }
  }

  // ---------------------------------------------------------------------------
  // The JSON export summary

  datatype ExportSummary = ExportSummary(
    reposAnalyzed: nat,
    totalCommits: int,
    uniqueContributors: nat,
    overallTop: Option<Entry>,
    overallTopPercent: real,
    overallTopAutomated: bool,
    topHuman: Option<Entry>,
    topHumanPercent: real,
    overallTopContributors: Tally,
    topHumanContributors: Tally)

  /** The summary of the download button: the first entry of the descending sort of
      the aggregate (or none), the top human, their shares of the commit metric (0 when
      it is 0), the first 20 of the sort and the first 10 humans of it. */
  function Export(rs: seq<RepoResult>): ExportSummary {
    var all := MergeAll(Contributions(rs));
    var sorted := SortDesc(all, Count);
    var top := if sorted != [] then Some(sorted[0]) else None;
    var human := TopHuman(all, IsAutomated);
    var total := TotalCommits(rs);
    ExportSummary(
      |rs|, total, UniqueContributors(rs),
      top, if top.Some? then Percent(top.value.1, total) else 0.0,
      top.Some? && IsAutomated(top.value.0),
      human, if human.Some? then Percent(human.value.1, total) else 0.0,
      Take(sorted, 20),
      Take(SortDesc(Humans(all, IsAutomated), Count), 10))
  }

  /** The overall top contributor is absent exactly when no successful repository has
      an author; otherwise it is the first author, in aggregate order, with the largest
      summed count. */
  lemma ExportTop(rs: seq<RepoResult>)
    ensures var e := Export(rs); var all := MergeAll(Contributions(rs));
      && (e.overallTop.None? <==> forall i :: 0 <= i < |rs| ==> rs[i].contributors == [])
      && (e.overallTop.Some? ==>
            && e.overallTop.value == all[ArgMax(all)]
            && e.overallTop.value.1 == SumOver(Contributions(rs), e.overallTop.value.0)
            && (forall a :: a in UnionKeys(Contributions(rs)) ==>
                  SumOver(Contributions(rs), a) <= e.overallTop.value.1))
      && e.uniqueContributors == |all| && e.reposAnalyzed == |rs|
  {
    var ts := Contributions(rs);
    var all := MergeAll(ts);
    MergeAllSpec(ts);
    Aggregate.MergeAllEmpty(ts);
    SortDescSpec(all, Count);
    forall i | 0 <= i < |rs| ensures ts[i] == rs[i].contributors { ContributionsAt(rs, i); }
    if all != [] {
      SortDescHead(all);
      var k := ArgMax(all);
      GetAt(all, k);
      forall a | a in UnionKeys(ts) ensures SumOver(ts, a) <= all[k].1 {
        KeySetIndex(all, a);
        var j :| 0 <= j < |all| && all[j].0 == a;
        GetAt(all, j);
      }
    }
  }

  /** The top human is absent exactly when every aggregated author is automated;
      otherwise it is a human author with the largest count among humans. */
  lemma {:induction false} ExportTopHuman(rs: seq<RepoResult>)
    ensures var e := Export(rs); var all := MergeAll(Contributions(rs));
      && (e.topHuman.None? <==> forall j :: 0 <= j < |all| ==> IsAutomated(all[j].0))
      && (e.topHuman.Some? ==>
            && e.topHuman.value in all && !IsAutomated(e.topHuman.value.0)
            && forall j :: 0 <= j < |all| && !IsAutomated(all[j].0) ==> all[j].1 <= e.topHuman.value.1)
  {
    ExportParts(rs);
    TopHumanSpec(MergeAll(Contributions(rs)), IsAutomated);
  }

  /** The human list holds min(10, number of human entries) human entries of the
      aggregate (`HumansCount` counts them), in non-increasing order. */
  lemma {:induction false} ExportHumanList(rs: seq<RepoResult>)
    ensures var e := Export(rs); var humans := |Humans(MergeAll(Contributions(rs)), IsAutomated)|;
      |e.topHumanContributors| == if humans < 10 then humans else 10
    ensures var e := Export(rs); var all := MergeAll(Contributions(rs));
      && Descending(e.topHumanContributors, Count)
      && (forall j :: 0 <= j < |e.topHumanContributors| ==>
            e.topHumanContributors[j] in all && !IsAutomated(e.topHumanContributors[j].0))
  {
    ExportParts(rs);
    HumanLeaderboard(MergeAll(Contributions(rs)), IsAutomated, 10);
  }

  /** A human of the aggregate left off the human list counts no more than any human
      on it, and a list shorter than 10 holds every human. */
  lemma {:induction false} ExportHumanCut(rs: seq<RepoResult>)
    ensures var l := Export(rs).topHumanContributors; var all := MergeAll(Contributions(rs));
      forall i, j :: 0 <= i < |l| && 0 <= j < |all| && !IsAutomated(all[j].0) && all[j] !in l
        ==> all[j].1 <= l[i].1
    ensures var l := Export(rs).topHumanContributors; var all := MergeAll(Contributions(rs));
      |l| < 10 ==> forall j :: 0 <= j < |all| && !IsAutomated(all[j].0) ==> all[j] in l
  {
    var all := MergeAll(Contributions(rs));
    ExportParts(rs);
    HumanLeaderboardCut(all, IsAutomated, 10);
    assert Export(rs).topHumanContributors == Leaderboard(Humans(all, IsAutomated), 10);
  }

  /** `main()` divides without a guard twice before it draws the download button: by
      the commit metric when it shows the overall top contributor (line 431), and, with
      more than one repository, by the top contributor's count when it splits that count
      by repository (line 548; the top author is in some repository). Either division
      by zero raises ZeroDivisionError. */
  predicate DisplayRaises(rs: seq<RepoResult>) {
    var top := Export(rs).overallTop;
    top.Some? && (TotalCommits(rs) == 0 || (|rs| > 1 && top.value.1 == 0))
  }

  /** The summary the download button writes, or `None` when the display raised first. */
  function ExportOf(rs: seq<RepoResult>): Option<ExportSummary> {
    if DisplayRaises(rs) then None else Some(Export(rs))
  }

  /** Without any author nothing is divided and the summary is written; with an author
      and a commit metric of 0 the overall top's share raises and nothing is written. */
  lemma ExportOfEmpty(rs: seq<RepoResult>)
    ensures (forall i :: 0 <= i < |rs| ==> rs[i].contributors == []) ==> ExportOf(rs) == Some(Export(rs))
    ensures (exists i :: 0 <= i < |rs| && rs[i].contributors != []) && TotalCommits(rs) == 0 ==>
              ExportOf(rs).None?
  {
    ExportTop(rs);
  }

  /** For results with positive counts, as git prints them, the display does not raise
      and both exported shares lie in (0, 100]. */
  lemma ExportReached(rs: seq<RepoResult>)
    requires forall i :: 0 <= i < |rs| ==> PositiveResult(rs[i])
    ensures ExportOf(rs) == Some(Export(rs))
    ensures var e := Export(rs);
      && (e.overallTop.Some? ==> 0.0 < e.overallTopPercent <= 100.0)
      && (e.topHuman.Some? ==> 0.0 < e.topHumanPercent <= 100.0)
  {
    AggregateBounds(rs);
    ExportTop(rs);
    ExportTopHuman(rs);
    var e := Export(rs);
    if e.overallTop.Some? {
      PercentBounds(e.overallTop.value.1, e.totalCommits);
    }
    if e.topHuman.Some? {
      PercentBounds(e.topHuman.value.1, e.totalCommits);
    }
  }

  lemma ExportParts(rs: seq<RepoResult>)
    ensures var all := MergeAll(Contributions(rs));
      && Export(rs).topHuman == TopHuman(all, IsAutomated)
      && Export(rs).topHumanContributors == Leaderboard(Humans(all, IsAutomated), 10)
  {
  }

  /** The overall list holds the first min(20, n) entries of the descending sort,
      starting with the overall top; both shares are 0 when the commit metric is 0 and
      lie within 0..100 when the count does not exceed it. */
  lemma ExportLists(rs: seq<RepoResult>)
    ensures var e := Export(rs); var all := MergeAll(Contributions(rs));
      && e.overallTopContributors == Leaderboard(all, 20)
      && |e.overallTopContributors| == (if |all| < 20 then |all| else 20)
      && Descending(e.overallTopContributors, Count)
      && (e.overallTop.Some? ==> e.overallTopContributors[0] == e.overallTop.value)
      && (e.totalCommits <= 0 ==> e.overallTopPercent == 0.0 && e.topHumanPercent == 0.0)
      && (e.overallTop.Some? && 0 <= e.overallTop.value.1 <= e.totalCommits ==>
            0.0 <= e.overallTopPercent <= 100.0)
      && (e.topHuman.Some? && 0 <= e.topHuman.value.1 <= e.totalCommits ==>
            0.0 <= e.topHumanPercent <= 100.0)
  {
    var e := Export(rs);
    var all := MergeAll(Contributions(rs));
    LeaderboardSpec(all, 20);
    SortDescSpec(all, Count);
    if e.overallTop.Some? {
      PercentBounds(e.overallTop.value.1, e.totalCommits);
    }
    if e.topHuman.Some? {
      PercentBounds(e.topHuman.value.1, e.totalCommits);
    }
  }
}
