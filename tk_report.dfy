/** What the Tk version shows and saves: the per-repository report of
    `display_repo_result`, the totals of `display_summary` and the summary block of
    `save_results`. */
module TkReport {
  import opened Optional
  import opened Counts
  import opened Ranking
  import opened Outcomes
  import opened Shortlog
  import opened RepoAnalysis
  import opened TkGui

  /** One numbered line of the report: rank, author, commits and share of the
      repository's commits. */
  datatype ReportRow = ReportRow(rank: nat, author: string, commits: int, percent: real)

  /** The report of one repository; `more` is the count of the "... and N more" line. */
  datatype RepoReport = RepoReport(name: string, url: string, totalCommits: int, contributorCount: int,
                                   topCount: nat, rows: seq<ReportRow>, more: Option<nat>)

  /** `enumerate(es, first)` with each share of `total`. */
  function Rows(es: Tally, total: int, first: nat): (rows: seq<ReportRow>)
    ensures |rows| == |es|
    ensures forall i :: 0 <= i < |es| ==>
      rows[i] == ReportRow(first + i, es[i].0, es[i].1, Percent(es[i].1, total))
  {
    if es == [] then []
    else [ReportRow(first, es[0].0, es[0].1, Percent(es[0].1, total))] + Rows(es[1..], total, first + 1)
  }

  /** `display_repo_result`: the contributors sorted by count, the first
      `min(10, n)` of them ranked from 1, and the remainder line when `n > 10`. */
  function RepoReportOf(r: RepoResult): RepoReport {
    var sorted := SortDesc(r.contributors, Count);
    var topCount := if 10 < |sorted| then 10 else |sorted|;
    RepoReport(r.name, r.url, r.totalCommits, r.contributorCount, topCount,
               Rows(sorted[..topCount], r.totalCommits, 1),
               if |sorted| > 10 then Some(|sorted| - 10) else None)
  }

  /** The report lists `min(10, n)` of the repository's entries, ranked 1, 2, ... in
      non-increasing commit order; the remainder line appears exactly when there are
      more than 10 contributors and counts the ones not listed; every share is 0 when
      the repository has no commits. */
  lemma RepoReportSpec(r: RepoResult)
    ensures var rep := RepoReportOf(r);
      var n := |r.contributors|;
      && rep.topCount == |rep.rows| == (if n < 10 then n else 10)
      && (forall i :: 0 <= i < |rep.rows| ==>
            rep.rows[i].rank == i + 1 && (rep.rows[i].author, rep.rows[i].commits) in r.contributors)
      && (forall i, j :: 0 <= i < j < |rep.rows| ==> rep.rows[j].commits <= rep.rows[i].commits)
      && (rep.more.Some? <==> n > 10)
      && (rep.more.Some? ==> rep.more.value == n - |rep.rows|)
      && (r.totalCommits <= 0 ==> forall i :: 0 <= i < |rep.rows| ==> rep.rows[i].percent == 0.0)
  {
    var c := r.contributors;
    var sorted := SortDesc(c, Count);
    SortDescSpec(c, Count);
    assert |sorted| == |c| by {
      assert |multiset(sorted)| == |multiset(c)|;
    }
    var rep := RepoReportOf(r);
    var top := Take(sorted, 10);
    assert sorted[..rep.topCount] == top;
    LeaderboardSpec(c, 10);
    forall i | 0 <= i < |rep.rows|
      ensures rep.rows[i].rank == i + 1 && (rep.rows[i].author, rep.rows[i].commits) in c
    {
      assert (rep.rows[i].author, rep.rows[i].commits) == top[i];
    }
    forall i, j | 0 <= i < j < |rep.rows| ensures rep.rows[j].commits <= rep.rows[i].commits {
      assert rep.rows[i].commits == Count(top[i]) && rep.rows[j].commits == Count(top[j]);
    }
  }

  /** The listed contributors are the leaderboard of the repository's mapping. */
  lemma RepoReportLeaderboard(r: RepoResult, i: nat)
    requires i < |RepoReportOf(r).rows|
    ensures (RepoReportOf(r).rows[i].author, RepoReportOf(r).rows[i].commits) == Leaderboard(r.contributors, 10)[i]
  {
    var sorted := SortDesc(r.contributors, Count);
    assert sorted[..RepoReportOf(r).topCount] == Take(sorted, 10);
  }

  // ---------------------------------------------------------------------------
  // Totals

  /** `sum(repo['contributor_count'] for repo in successful_repos)` */
  function ContributorTotal(rs: seq<RepoResult>): int {
    if rs == [] then 0 else ContributorTotal(rs[..|rs| - 1]) + rs[|rs| - 1].contributorCount
  }

  /** The totals `display_summary` prints, only when a repository succeeded. */
  function DisplayTotals(successful: seq<RepoResult>): Option<(int, int)> {
    if successful == [] then None else Some((TotalCommits(successful), ContributorTotal(successful)))
  }

  /** The `summary` block of the saved file. */
  datatype SavedSummary = SavedSummary(processed: nat, successful: nat, failed: nat,
                                       totalCommits: int, totalContributors: int)

  function SavedSummaryOf(successful: seq<RepoResult>, failed: seq<string>): SavedSummary {
    SavedSummary(|successful| + |failed|, |successful|, |failed|,
                 TotalCommits(successful), ContributorTotal(successful))
  }

  /** A result as `analyze_single_repo` builds it: unique authors, counted by
      `contributor_count`. */
  predicate WellFormed(r: RepoResult) {
    UniqueKeys(r.contributors) && r.contributorCount == |r.contributors|
  }

  lemma OutcomeWellFormed(name: string, run: GitRun)
    requires RepoOutcome(name, run).Some?
    ensures WellFormed(RepoOutcome(name, run).value)
  {
    FromEntriesSpec(Records(run.stdout).value);
  }

  /** The contributor total adds up per-repository author counts, so an author of
      several repositories is counted once per repository: it is at least the number
      of distinct authors. */
  lemma {:induction false} ContributorTotalBound(rs: seq<RepoResult>)
    requires forall i :: 0 <= i < |rs| ==> WellFormed(rs[i])
    ensures ContributorTotal(rs) >= |UnionKeys(Contributions(rs))|
  {
    if rs != [] {
      var n := |rs| - 1;
      var prior := rs[..n];
      assert forall i :: 0 <= i < n ==> prior[i] == rs[i];
      ContributorTotalBound(prior);
      var c := rs[n].contributors;
      assert WellFormed(rs[n]);
      UniqueKeysSize(c);
      ContributionsAt(rs, n);
      assert rs[..n + 1] == rs;
      UnionKeysSnoc(Contributions(prior), c);
    }
  }

  lemma UnionKeysSnoc(ts: seq<Tally>, t: Tally)
    ensures UnionKeys(ts + [t]) == UnionKeys(ts) + KeySet(t)
  {
    assert (ts + [t])[..|ts|] == ts;
  }

  /** One author in two repositories: two in the contributor total, one distinct. */
  lemma CountedTwice()
    ensures var r1 := RepoResult("a", "https://github.com/tr/a", [("dev", 1)], 1, 1);
      var r2 := RepoResult("b", "https://github.com/tr/b", [("dev", 2)], 2, 1);
      ContributorTotal([r1, r2]) == 2 && |UnionKeys(Contributions([r1, r2]))| == 1
  {
    var t1: Tally := [("dev", 1)];
    var t2: Tally := [("dev", 2)];
    var r1 := RepoResult("a", "https://github.com/tr/a", t1, 1, 1);
    var r2 := RepoResult("b", "https://github.com/tr/b", t2, 2, 1);
    var none: seq<RepoResult> := [];
    assert [r1, r2][..1] == [r1];
    assert [r1][..0] == none;
    assert ContributorTotal([r1]) == 1;
    assert Contributions([r1]) == [t1];
    assert Contributions([r1, r2]) == [t1, t2];
    assert KeySet(t1) == {"dev"} && KeySet(t2) == {"dev"} by {
      assert t1[1..] == [] && t2[1..] == [];
    }
    UnionKeysSnoc([], t1);
    UnionKeysSnoc([t1], t2);
    assert [t1] == [] + [t1] && [t1, t2] == [t1] + [t2];
  }

  /** The summary counts every name handled once. */
  lemma SavedSummarySpec(names: seq<string>, rs: seq<Option<RepoResult>>)
    requires |names| == |rs|
    ensures var s := SavedSummaryOf(Successes(rs), Failures(names, rs));
      && s.processed == |names|
      && s.successful + s.failed == |names|
  {
    PartitionSizes(names, rs);
  }

  /** Every stored success is a well-formed result. */
  lemma {:induction false} TkSuccessesWellFormed(names: seq<string>, runs: seq<GitRun>, stop: Option<Point>)
    requires |names| == |runs|
    ensures forall i :: 0 <= i < |Successes(TkOutcomes(names, runs, stop))| ==>
      WellFormed(Successes(TkOutcomes(names, runs, stop))[i])
  {
    if names != [] {
      var n := |names| - 1;
      TkSuccessesWellFormed(names[..n], runs[..n], stop);
      var prior := TkOutcomes(names[..n], runs[..n], stop);
      var o := TkOutcome(names[n], runs[n], n, stop);
      var os := TkOutcomes(names, runs, stop);
      assert os == prior + [o];
      assert os[..n] == prior && os[n] == o;
      OutcomesSnoc(names, os, n);
      assert os[..n + 1] == os;
      var ss := Successes(prior);
      if o.Some? {
        OutcomeWellFormed(names[n], runs[n]);
        assert Successes(os) == ss + [o.value];
        forall i | 0 <= i < |ss| + 1 ensures WellFormed((ss + [o.value])[i]) {
          if i < |ss| { assert (ss + [o.value])[i] == ss[i]; }
        }
      } else {
        assert Successes(os) == ss;
      }
    }
  }

  /** The file saved after a run: it counts the started repositories, all of them
      without a stop, and its contributor total is at least the number of distinct
      authors. */
  lemma StoredSummary(names: seq<string>, runs: seq<GitRun>, stop: Option<Point>)
    requires |names| == |runs|
    ensures var m := Started(|names|, stop);
      var os := TkOutcomes(names[..m], runs[..m], stop);
      var s := SavedSummaryOf(Successes(os), Failures(names[..m], os));
      && s.processed == m <= |names|
      && (stop.None? ==> s.processed == |names|)
      && s.totalContributors >= |UnionKeys(Contributions(Successes(os)))|
  {
    var m := Started(|names|, stop);
    var os := TkOutcomes(names[..m], runs[..m], stop);
    PartitionSizes(names[..m], os);
    TkSuccessesWellFormed(names[..m], runs[..m], stop);
    ContributorTotalBound(Successes(os));
  }
}
