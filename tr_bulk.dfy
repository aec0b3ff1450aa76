/** The bulk analyzer for the organisation's repositories: a box of names, one loop
    that merges every non-empty mapping into one Counter and sorts the names into
    success tuples and failed names, and the results view. */
module TrBulk {
  import opened Optional
  import opened PyStr
  import opened Counts
  import opened Ranking
  import opened Shortlog
  import opened RepoNames
  import opened RepoAnalysis
  import opened Outcomes
  import opened Aggregate
  import SummaryLoop

  /** The tuple `(repo_name, len(contributors), sum(contributors.values()))`. */
  datatype BulkSuccess = BulkSuccess(name: string, contributors: nat, commits: int)

  /** `analyze_single_repo` yields the mapping, `{}` on any failure; `if contributors:`
      turns an empty mapping into a failed name. */
  function BulkOutcome(name: string, run: GitRun): Option<BulkSuccess> {
    var c := MappingOf(run);
    if c != [] then Some(BulkSuccess(name, |c|, Sum(c))) else None
  }

  /** The outcome of every name of a run, in order. */
  function BulkOutcomes(names: seq<string>, runs: seq<GitRun>): (os: seq<Option<BulkSuccess>>)
    requires |names| == |runs|
    ensures |os| == |names|
  {
    if names == [] then []
    else
      var n := |names| - 1;
      BulkOutcomes(names[..n], runs[..n]) + [BulkOutcome(names[n], runs[n])]
  }

  /** A tuple counts the repository's distinct authors and adds up its commits; a
      repository fails exactly when its mapping is empty: a failed run, a malformed
      line, or a shortlog listing no author. */
  lemma BulkOutcomeSpec(name: string, run: GitRun)
    ensures BulkOutcome(name, run).None? <==>
      !run.Log? || Records(run.stdout).None? || Records(run.stdout).value == []
    ensures BulkOutcome(name, run).Some? ==>
      var s := BulkOutcome(name, run).value;
      var es := Records(run.stdout).value;
      s.name == name && s.contributors == |KeySet(es)| && s.commits == Sum(FromEntries(es))
  {
    MappingOfSpec(run);
    if BulkOutcome(name, run).Some? {
      var es := Records(run.stdout).value;
      FromEntriesSpec(es);
      UniqueKeysSize(FromEntries(es));
    }
  }

  /** Unlike the Streamlit and Tk versions, an empty shortlog is a failure here. */
  lemma EmptyShortlogFails(name: string, out: string)
    requires forall i :: 0 <= i < |out| ==> IsSpace(out[i])
    ensures BulkOutcome(name, Log(out)).None?
    ensures RepoOutcome(name, Log(out)).Some?
  {
    EmptyShortlogMapping(out);
    EmptyShortlogSucceeds(name, out);
  }

  lemma {:induction false} BulkOutcomesAt(names: seq<string>, runs: seq<GitRun>, i: nat)
    requires |names| == |runs| && i < |names|
    ensures BulkOutcomes(names, runs)[i] == BulkOutcome(names[i], runs[i])
    decreases |names|
  {
    var n := |names| - 1;
    var prior := BulkOutcomes(names[..n], runs[..n]);
    var last := BulkOutcome(names[n], runs[n]);
    assert BulkOutcomes(names, runs) == prior + [last];
    if i < n {
      BulkOutcomesAt(names[..n], runs[..n], i);
      assert names[..n][i] == names[i] && runs[..n][i] == runs[i];
      assert (prior + [last])[i] == prior[i];
      assert BulkOutcomes(names, runs)[i] == BulkOutcome(names[i], runs[i]);
    } else {
      assert i == n;
      assert (prior + [last])[i] == last;
      assert BulkOutcomes(names, runs)[i] == BulkOutcome(names[i], runs[i]);
    }
  }

  /** One more name: its mapping joins the list of mappings and its outcome the list
      of outcomes. */
  lemma BulkStep(names: seq<string>, runs: seq<GitRun>, i: nat)
    requires |names| == |runs| && i < |names|
    ensures MergeAll(RunMappings(runs[..i + 1])) == Merge(MergeAll(RunMappings(runs[..i])), MappingOf(runs[i]))
    ensures var os := BulkOutcomes(names[..i + 1], runs[..i + 1]);
      var o := BulkOutcome(names[i], runs[i]);
      && Successes(os) == Successes(BulkOutcomes(names[..i], runs[..i])) + (if o.Some? then [o.value] else [])
      && Failures(names[..i + 1], os)
         == Failures(names[..i], BulkOutcomes(names[..i], runs[..i])) + (if o.None? then [names[i]] else [])
  {
    assert runs[..i + 1][..i] == runs[..i];
    assert names[..i + 1][..i] == names[..i];
    MergeAllSnoc(RunMappings(runs[..i]), MappingOf(runs[i]));
    var prior := BulkOutcomes(names[..i], runs[..i]);
    var os := BulkOutcomes(names[..i + 1], runs[..i + 1]);
    assert os == prior + [BulkOutcome(names[i], runs[i])];
    OutcomesSnoc(names[..i + 1], os, i);
    assert os[..i] == prior;
    assert os[..i + 1] == os;
  }

  /** Every name lands in exactly one list: the names of the success tuples and the
      failed names together are the requested names, and their counts add up. */
  lemma BulkPartition(names: seq<string>, runs: seq<GitRun>)
    requires |names| == |runs|
    ensures var os := BulkOutcomes(names, runs);
      && |Successes(os)| + |Failures(names, os)| == |names|
      && multiset(Names(Successes(os), (s: BulkSuccess) => s.name)) + multiset(Failures(names, os))
         == multiset(names)
  {
    var os := BulkOutcomes(names, runs);
    forall i | 0 <= i < |os| && os[i].Some? ensures os[i].value.name == names[i] {
      BulkOutcomesAt(names, runs, i);
    }
    PartitionSizes(names, os);
    PartitionNames(names, os, (s: BulkSuccess) => s.name);
  }

  /** The Counter is the per-author sum over the repositories; a failed repository has
      an empty mapping, so the sum is over the successful ones only. */
  lemma {:induction false} FailedAddNothing(names: seq<string>, runs: seq<GitRun>, i: nat)
    requires |names| == |runs| && i < |names|
    requires BulkOutcomes(names, runs)[i].None?
    ensures RunMappings(runs)[i] == []
    ensures forall a :: CountOf(RunMappings(runs)[i], a) == 0
  {
    BulkOutcomesAt(names, runs, i);
    RunMappingsAt(runs, i);
  }

  /** `sum(commits for _, _, commits in successful_repos)` */
  function SuccessCommits(ss: seq<BulkSuccess>): int {
    if ss == [] then 0 else SuccessCommits(ss[..|ss| - 1]) + ss[|ss| - 1].commits
  }

  /** The success tuples account for every commit of the Counter. */
  lemma {:induction false} SuccessCommitsTotal(names: seq<string>, runs: seq<GitRun>)
    requires |names| == |runs|
    ensures SuccessCommits(Successes(BulkOutcomes(names, runs))) == TotalOver(RunMappings(runs))
  {
    if names != [] {
      var n := |names| - 1;
      SuccessCommitsTotal(names[..n], runs[..n]);
      var prior := BulkOutcomes(names[..n], runs[..n]);
      var o := BulkOutcome(names[n], runs[n]);
      assert (prior + [o])[..n] == prior;
      var s := Successes(prior);
      var ts := RunMappings(runs);
      assert ts == RunMappings(runs[..n]) + [MappingOf(runs[n])];
      assert ts[..n] == RunMappings(runs[..n]);
      assert TotalOver(ts) == TotalOver(RunMappings(runs[..n])) + Sum(MappingOf(runs[n]));
      var c := MappingOf(runs[n]);
      assert BulkOutcomes(names, runs) == prior + [o];
      if o.Some? {
        assert (s + [o.value])[..|s|] == s;
        assert Successes(prior + [o]) == s + [o.value];
        assert o.value.commits == Sum(c);
      } else {
        assert c == [];
        assert Successes(prior + [o]) == s;
      }
    }
  }

  /** No contributor at all exactly when every repository failed. */
  lemma {:induction false} NoContributorsAllFailed(names: seq<string>, runs: seq<GitRun>)
    requires |names| == |runs|
    ensures MergeAll(RunMappings(runs)) == [] <==> Successes(BulkOutcomes(names, runs)) == []
  {
    MergeAllEmpty(RunMappings(runs));
    SuccessesEmpty(names, runs);
    forall i | 0 <= i < |names| ensures RunMappings(runs)[i] == MappingOf(runs[i]) {
      RunMappingsAt(runs, i);
    }
  }

  lemma SuccessesEmpty(names: seq<string>, runs: seq<GitRun>)
    requires |names| == |runs|
    ensures Successes(BulkOutcomes(names, runs)) == [] <==> forall i :: 0 <= i < |runs| ==> MappingOf(runs[i]) == []
  {
    var os := BulkOutcomes(names, runs);
    NoSuccesses(os);
    forall i | 0 <= i < |runs| ensures os[i].None? <==> MappingOf(runs[i]) == [] {
      BulkOutcomesAt(names, runs, i);
    }
  }

  // ---------------------------------------------------------------------------
  // The results view

  datatype BulkDisplay =
    | NoContributors(failed: seq<string>)
    | Report(top: Tally, successCount: nat, failCount: nat, unique: nat, commits: int,
             breakdown: seq<BulkSuccess>, failedNames: seq<string>)

  /** `display_results`: only the failed names when no contributor was found;
      otherwise the first 10 of the descending sort, the counts, the breakdown and the
      failed names. */
  function DisplayOf(all: Tally, successful: seq<BulkSuccess>, failed: seq<string>): BulkDisplay {
    if all == [] then BulkDisplay.NoContributors(failed)
    else Report(Leaderboard(all, 10), |successful|, |failed|, |all|, Sum(all), successful, failed)
  }

  /** For the lists of a run: the failure-only view appears exactly when every
      repository failed; otherwise the counts add up to the requested names, the unique
      count is the number of distinct authors, the commit total is what the tuples add
      up to, and the top list is at most 10 entries of the Counter in non-increasing
      order. */
  lemma DisplaySpec(names: seq<string>, runs: seq<GitRun>)
    requires |names| == |runs|
    ensures var os := BulkOutcomes(names, runs);
      var all := MergeAll(RunMappings(runs));
      var d := DisplayOf(all, Successes(os), Failures(names, os));
      && (d.NoContributors? <==> Successes(os) == [])
      && (d.NoContributors? ==> d.failed == names)
      && (d.Report? ==>
            && d.successCount + d.failCount == |names|
            && d.unique == |UnionKeys(RunMappings(runs))|
            && d.commits == SuccessCommits(Successes(os))
            && |d.top| <= 10 && Descending(d.top, Count)
            && (forall i :: 0 <= i < |d.top| ==> d.top[i] in all))
  {
    var os := BulkOutcomes(names, runs);
    var all := MergeAll(RunMappings(runs));
    NoContributorsAllFailed(names, runs);
    BulkPartition(names, runs);
    MergeAllSpec(RunMappings(runs));
    SuccessCommitsTotal(names, runs);
    LeaderboardSpec(all, 10);
    if Successes(os) == [] {
      AllFailed(names, os);
    }
  }

  // ---------------------------------------------------------------------------
  // The window

  class Analyzer {
    /** The text of the names box. */
    var repoText: string
    var analyzing: bool

    constructor ()
      ensures repoText == [] && !analyzing
    {
      repoText := [];
      analyzing := false;
    }

    /** `start_analysis`: refuses an empty name list and a second run; otherwise marks
        the analysis as running and hands the names on. */
    method StartAnalysis() returns (started: bool, names: seq<string>)
      modifies this`analyzing
      ensures names == BulkNamesOf(repoText)
      ensures started <==> names != [] && !old(analyzing)
      ensures analyzing == (old(analyzing) || started)
    {
      names := GetBulkNames(repoText);
      if names == [] {
        return false, names;
      }
      if analyzing {
        return false, names;
      }
      analyzing := true;
      started := true;
    }

    /** `analyze_repositories`: the Counter, the success tuples and the failed names of
        the run, in input order. */
    method AnalyzeRepositories(names: seq<string>, runs: seq<GitRun>)
      returns (all: Tally, successful: seq<BulkSuccess>, failed: seq<string>)
      requires |names| == |runs|
      ensures all == MergeAll(RunMappings(runs))
      ensures successful == Successes(BulkOutcomes(names, runs))
      ensures failed == Failures(names, BulkOutcomes(names, runs))
    {
      all := [];
      successful := [];
      failed := [];
      var i := 0;
      while i < |names|
        invariant 0 <= i <= |names|
        invariant all == MergeAll(RunMappings(runs[..i]))
        invariant successful == Successes(BulkOutcomes(names[..i], runs[..i]))
        invariant failed == Failures(names[..i], BulkOutcomes(names[..i], runs[..i]))
      {
        BulkStep(names, runs, i);
        var contributors := FetchMapping(runs[i]);
        if contributors != [] {
          all := SummaryLoop.MergeCounts(all, contributors);
          successful := successful + [BulkSuccess(names[i], |contributors|, Sum(contributors))];
        } else {
          failed := failed + [names[i]];
        }
        i := i + 1;
      }
      assert names[..i] == names && runs[..i] == runs;
    }

    /** `display_results`: the analysis is over, and the view is shown. */
    method DisplayResults(all: Tally, successful: seq<BulkSuccess>, failed: seq<string>)
      returns (d: BulkDisplay)
      modifies this`analyzing
      ensures !analyzing
      ensures d == DisplayOf(all, successful, failed)
    {
      analyzing := false;
      if all == [] {
        return BulkDisplay.NoContributors(failed);
      }
      var sorted := SortDesc(all, Count);
      d := Report(Take(sorted, 10), |successful|, |failed|, |all|, Sum(all), successful, failed);
    }
  }
}
