/** What analysing one repository yields. The two `git` runs are given as a
    `GitRun`; the analyzers turn it into one of three shapes:
    - the result record of the Streamlit and Tk versions (failure is `None`),
    - the author mapping of the other analyzers (failure is the empty mapping),
    - the record list of the single-repository tool (failure is `None`). */
module RepoAnalysis {
  import opened Optional
  import opened PyStr
  import opened Counts
  import opened Shortlog
  import opened RepoNames

  /** The result dict of the Streamlit and Tk versions. */
  datatype RepoResult = RepoResult(name: string, url: string, contributors: Tally,
                                   totalCommits: int, contributorCount: int)

  /** The result for a repository whose shortlog printed `records`: the dict built by
      `contributors[author] = count`, the running total and `len(contributors)`. */
  function ResultOf(name: string, records: seq<Entry>): RepoResult {
    var c := FromEntries(records);
    RepoResult(name, TrUrl(name), c, Sum(records), |c|)
  }

  /** A result as a shortlog with positive counts gives it: every count positive, and a
      running total no smaller than the dict's total. */
  predicate PositiveResult(r: RepoResult) {
    Positive(r.contributors) && r.totalCommits >= Sum(r.contributors)
  }

  /** Positive shortlog counts, as git prints them, make a positive result. */
  lemma ResultOfPositive(name: string, records: seq<Entry>)
    requires Positive(records)
    ensures PositiveResult(ResultOf(name, records))
  {
    FromEntriesPositive(records);
  }

  /** `analyze_single_repo` of the Streamlit version: a failed clone, a failed shortlog
      or a count `int()` rejects gives `None`. */
  function RepoOutcome(name: string, run: GitRun): Option<RepoResult> {
    match run
    case Log(out) =>
      (match Records(out) case Some(es) => Some(ResultOf(name, es)) case None => None)
    case _ => None
  }

  /** A result exists exactly when both runs succeeded and every line parsed. It names
      the repository and its organisation URL, holds one key per distinct author with
      the count of that author's last line, counts the distinct authors, and totals
      every line (repeats included). */
  lemma RepoOutcomeSpec(name: string, run: GitRun)
    ensures RepoOutcome(name, run).None? <==> !run.Log? || Records(run.stdout).None?
    ensures RepoOutcome(name, run).Some? ==>
      var r := RepoOutcome(name, run).value;
      var es := Records(run.stdout).value;
      r.name == name && r.url == TrUrl(name)
      && UniqueKeys(r.contributors) && KeySet(r.contributors) == KeySet(es)
      && r.contributorCount == |KeySet(es)|
      && (forall a :: Get(r.contributors, a) == LastCount(es, a))
      && r.totalCommits == Sum(es)
  {
    if run.Log? && Records(run.stdout).Some? {
      FromEntriesSpec(Records(run.stdout).value);
    }
  }

  /** An empty shortlog is a success with no contributors and no commits. */
  lemma EmptyShortlogSucceeds(name: string, out: string)
    requires forall i :: 0 <= i < |out| ==> IsSpace(out[i])
    ensures RepoOutcome(name, Log(out)) == Some(RepoResult(name, TrUrl(name), [], 0, 0))
  {
    EmptyShortlog(out);
  }

  /** A failed clone or shortlog is a failure whatever the name. */
  lemma GitFailureFails(name: string)
    ensures RepoOutcome(name, CloneFailed).None? && RepoOutcome(name, LogFailed).None?
  {
  }

  /** `analyze_single_repo` of the Streamlit version. */
  method AnalyzeSingleRepo(name: string, run: GitRun) returns (r: Option<RepoResult>)
    ensures r == RepoOutcome(name, run)
  {
    var url := TrUrl(name);
    match run {
      case CloneFailed => return None;
      case LogFailed => return None;
      case Log(out) =>
        var counted := CountRecords(Lines(out), ParseLine);
        match counted {
          case None => return None;
          case Some(p) =>
            var contributors := p.0;
            var total := p.1;
            return Some(RepoResult(name, url, contributors, total, |contributors|));
        }
    }
  }

  /** The results of a batch of names, one per name. */
  function RepoOutcomes(names: seq<string>, runs: seq<GitRun>): (os: seq<Option<RepoResult>>)
    requires |names| == |runs|
    ensures |os| == |names|
  {
    if names == [] then []
    else
      var n := |names| - 1;
      RepoOutcomes(names[..n], runs[..n]) + [RepoOutcome(names[n], runs[n])]
  }

  lemma {:induction false} RepoOutcomesAt(names: seq<string>, runs: seq<GitRun>, i: nat)
    requires |names| == |runs| && i < |names|
    ensures RepoOutcomes(names, runs)[i] == RepoOutcome(names[i], runs[i])
    ensures RepoOutcomes(names, runs)[..i] == RepoOutcomes(names[..i], runs[..i])
    decreases |names|
  {
    var n := |names| - 1;
    if i < n {
      RepoOutcomesAt(names[..n], runs[..n], i);
      assert names[..n][..i] == names[..i];
      assert runs[..n][..i] == runs[..i];
    } else {
      assert names[..n] == names[..i];
      assert runs[..n] == runs[..i];
    }
  }

  /** Every successful result carries the name it was analysed for. */
  lemma RepoOutcomesNamed(names: seq<string>, runs: seq<GitRun>)
    requires |names| == |runs|
    ensures forall i :: 0 <= i < |names| && RepoOutcomes(names, runs)[i].Some? ==>
      RepoOutcomes(names, runs)[i].value.name == names[i]
  {
    forall i | 0 <= i < |names| ensures RepoOutcomes(names, runs)[i] == RepoOutcome(names[i], runs[i]) {
      RepoOutcomesAt(names, runs, i);
    }
  }

  /** The per-repository dicts of the results, in order. */
  function Contributions(rs: seq<RepoResult>): (ts: seq<Tally>)
    ensures |ts| == |rs|
  {
    if rs == [] then [] else Contributions(rs[..|rs| - 1]) + [rs[|rs| - 1].contributors]
  }

  lemma {:induction false} ContributionsAt(rs: seq<RepoResult>, i: nat)
    requires i < |rs|
    ensures Contributions(rs)[i] == rs[i].contributors
    ensures Contributions(rs[..i + 1]) == Contributions(rs[..i]) + [rs[i].contributors]
  {
    var n := |rs| - 1;
    assert rs[..i + 1][..i] == rs[..i];
    if i < n {
      ContributionsAt(rs[..n], i);
      assert rs[..n][..i + 1] == rs[..i + 1];
    }
  }

  /** `sum(repo['total_commits'] for repo in successful_repos)` */
  function TotalCommits(rs: seq<RepoResult>): int {
    if rs == [] then 0 else TotalCommits(rs[..|rs| - 1]) + rs[|rs| - 1].totalCommits
  }

  // ---------------------------------------------------------------------------
  // The author mapping, `{}` on any failure

  /** The parsed mapping of the other analyzers: `contributors[author] = int(count)`
      for every record; every failure (clone, shortlog, `int()`) is caught and gives
      `{}`. */
  function MappingOf(run: GitRun): Tally {
    match run
    case Log(out) => (match Records(out) case Some(es) => FromEntries(es) case None => [])
    case _ => []
  }

  /** The mapping has distinct keys; it is empty exactly when a run failed, a line was
      malformed, or the shortlog listed no author; otherwise each author has the count
      of its last line. */
  lemma MappingOfSpec(run: GitRun)
    ensures UniqueKeys(MappingOf(run))
    ensures MappingOf(run) == [] <==>
      !run.Log? || Records(run.stdout).None? || Records(run.stdout).value == []
    ensures run.Log? && Records(run.stdout).Some? ==>
      forall a :: Get(MappingOf(run), a) == LastCount(Records(run.stdout).value, a)
  {
    if run.Log? && Records(run.stdout).Some? {
      var es := Records(run.stdout).value;
      FromEntriesSpec(es);
      FromEntriesEmpty(es);
    }
  }

  lemma FromEntriesEmpty(es: seq<Entry>)
    ensures FromEntries(es) == [] <==> es == []
  {
    if es != [] {
      assert es[|es| - 1].0 in KeySet(FromEntries(es));
    }
  }

  /** The two shapes agree: a successful result's dict is the mapping, and a failed
      result comes with the empty mapping. */
  lemma ShapesAgree(name: string, run: GitRun)
    ensures RepoOutcome(name, run).Some? ==> MappingOf(run) == RepoOutcome(name, run).value.contributors
    ensures RepoOutcome(name, run).None? ==> MappingOf(run) == []
  {
  }

  /** The mapping of every repository of a run, in order. */
  function RunMappings(runs: seq<GitRun>): (ts: seq<Tally>)
    ensures |ts| == |runs|
  {
    if runs == [] then [] else RunMappings(runs[..|runs| - 1]) + [MappingOf(runs[|runs| - 1])]
  }

  lemma {:induction false} RunMappingsAt(runs: seq<GitRun>, i: nat)
    requires i < |runs|
    ensures RunMappings(runs)[i] == MappingOf(runs[i])
    decreases |runs|
  {
    var n := |runs| - 1;
    var prior := RunMappings(runs[..n]);
    var last := MappingOf(runs[n]);
    assert RunMappings(runs) == prior + [last];
    if i < n {
      RunMappingsAt(runs[..n], i);
      assert runs[..n][i] == runs[i];
      assert (prior + [last])[i] == prior[i];
      assert RunMappings(runs)[i] == MappingOf(runs[i]);
    } else {
      assert i == n;
      assert (prior + [last])[i] == last;
      assert RunMappings(runs)[i] == MappingOf(runs[i]);
    }
  }

  /** An empty shortlog gives the empty mapping, which the bulk tool counts as a
      failure. */
  lemma EmptyShortlogMapping(out: string)
    requires forall i :: 0 <= i < |out| ==> IsSpace(out[i])
    ensures MappingOf(Log(out)) == []
  {
    EmptyShortlog(out);
  }

  /** The parse step of the mapping analyzers. */
  method FetchMapping(run: GitRun) returns (c: Tally)
    ensures c == MappingOf(run)
  {
    match run {
      case CloneFailed => return [];
      case LogFailed => return [];
      case Log(out) =>
        var counted := CountRecords(Lines(out), ParseLine);
        if counted.None? {
          return [];
        }
        c := counted.value.0;
    }
  }

  // ---------------------------------------------------------------------------
  // The record list of the single-repository tool

  /** The records in shortlog order, repeats kept; `None` on any failure. */
  function RecordsOf(run: GitRun): Option<seq<Entry>> {
    match run
    case Log(out) => Records(out)
    case _ => None
  }

  /** The parse step of the single-repository tool. */
  method FetchRecords(run: GitRun) returns (r: Option<seq<Entry>>)
    ensures r == RecordsOf(run)
  {
    match run {
      case CloneFailed => return None;
      case LogFailed => return None;
      case Log(out) =>
        r := ListRecords(Lines(out), ParseLine);
    }
  }

  /** The list and the mapping hold the same authors; the mapping keeps each author's
      last count, the list every line. */
  lemma RecordsAndMapping(run: GitRun)
    requires RecordsOf(run).Some?
    ensures KeySet(MappingOf(run)) == KeySet(RecordsOf(run).value)
    ensures forall a :: Get(MappingOf(run), a) == LastCount(RecordsOf(run).value, a)
  {
    FromEntriesSpec(RecordsOf(run).value);
  }
}
