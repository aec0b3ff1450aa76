/** The Tk version (`top_contributors_gui.py`): the `analyzing` and `stop_requested`
    flags, the batch loop with its cooperative stop checks, the per-repository report
    and the totals of the summary and of the saved file.

    The stop button runs on the UI thread while the analysis runs on a worker thread.
    The worker reads `stop_requested` at three kinds of points: for repository `i`,
    before it starts, after its clone succeeded and after it finished. Once set, the
    flag stays set until the next start, so a run is described by the first point that
    sees it: `stop == Some(p)` means every read at `p` or later sees the flag,
    `stop == None` that no read does. */
module TkGui {
  import opened Optional
  import opened Counts
  import opened Ranking
  import opened Shortlog
  import opened Outcomes
  import opened RepoNames
  import opened RepoAnalysis

  /** Where in the handling of one repository the flag is read. */
  datatype Phase = BeforeRepo | AfterClone | AfterRepo

  /** A read of the flag: the repository's index and the phase. */
  datatype Point = Point(repo: nat, phase: Phase)

  function PhaseRank(ph: Phase): nat {
    match ph
    case BeforeRepo => 0
    case AfterClone => 1
    case AfterRepo => 2
  }

  /** Whether point `p` is reached no earlier than point `q`. */
  predicate NotBefore(p: Point, q: Point) {
    q.repo < p.repo || (q.repo == p.repo && PhaseRank(q.phase) <= PhaseRank(p.phase))
  }

  /** Whether the read at point `p` sees the flag. */
  predicate Seen(stop: Option<Point>, p: Point) {
    stop.Some? && NotBefore(p, stop.value)
  }

  /** The stop a run sees when the flag may already be set when the worker starts. */
  function Effective(requested: bool, stop: Option<Point>): Option<Point> {
    if requested then Some(Point(0, BeforeRepo)) else stop
  }

  /** The worker's `analyze_single_repo` for repository `i`: a stop seen after the
      clone abandons the repository (`None`), as does any git or parse failure. */
  function TkOutcome(name: string, run: GitRun, i: nat, stop: Option<Point>): Option<RepoResult> {
    if Seen(stop, Point(i, AfterClone)) then None else RepoOutcome(name, run)
  }

  function TkOutcomes(names: seq<string>, runs: seq<GitRun>, stop: Option<Point>): (os: seq<Option<RepoResult>>)
    requires |names| == |runs|
    ensures |os| == |names|
  {
    if names == [] then []
    else
      var n := |names| - 1;
      TkOutcomes(names[..n], runs[..n], stop) + [TkOutcome(names[n], runs[n], n, stop)]
  }

  /** How many repositories the loop starts: repository `i` starts exactly when the
      read before it does not see the flag. */
  function Started(n: nat, stop: Option<Point>): (m: nat)
    ensures m <= n
  {
    if stop.None? then n
    else
      var m := if stop.value.phase == BeforeRepo then stop.value.repo else stop.value.repo + 1;
      if m < n then m else n
  }

  lemma StartedAt(n: nat, stop: Option<Point>, i: nat)
    requires i < n
    ensures i < Started(n, stop) <==> !Seen(stop, Point(i, BeforeRepo))
  {
  }

  /** The flag after the worker's loop over `n` repositories: set before it started,
      or seen by the last read of the run, the one after the last repository. */
  predicate FinalFlag(requested: bool, n: nat, stop: Option<Point>) {
    requested || (n > 0 && Seen(stop, Point(n - 1, AfterRepo)))
  }

  /** The loop leaves at the read before repository `i`: exactly `i` repositories were
      started, and the flag stays set. */
  lemma ExitBefore(requested: bool, stop: Option<Point>, n: nat, i: nat)
    requires i < n
    requires i > 0 ==> !requested && !Seen(stop, Point(i - 1, AfterRepo))
    requires (i == 0 && requested) || Seen(stop, Point(i, BeforeRepo))
    ensures i == Started(n, Effective(requested, stop))
    ensures FinalFlag(requested, n, stop)
  {
    if !requested {
      SeenLater(stop, Point(i, BeforeRepo), Point(n - 1, AfterRepo));
    }
  }

  /** The loop leaves at the read after repository `i - 1`, which it started: exactly
      `i` repositories were started, and the flag stays set. */
  lemma ExitAfter(requested: bool, stop: Option<Point>, n: nat, i: nat)
    requires 0 < i <= n && !requested
    requires !Seen(stop, Point(i - 1, BeforeRepo)) && Seen(stop, Point(i - 1, AfterRepo))
    ensures i == Started(n, Effective(requested, stop))
    ensures FinalFlag(requested, n, stop)
  {
    SeenLater(stop, Point(i - 1, AfterRepo), Point(n - 1, AfterRepo));
  }

  lemma TkOutcomesSnoc(names: seq<string>, runs: seq<GitRun>, stop: Option<Point>, i: nat)
    requires |names| == |runs| && i < |names|
    ensures TkOutcomes(names[..i + 1], runs[..i + 1], stop)
         == TkOutcomes(names[..i], runs[..i], stop) + [TkOutcome(names[i], runs[i], i, stop)]
  {
    assert names[..i + 1][..i] == names[..i];
    assert runs[..i + 1][..i] == runs[..i];
  }

  /** The outcome of one started repository, and the lists grown by it. */
  lemma TkStep(names: seq<string>, runs: seq<GitRun>, stop: Option<Point>, i: nat)
    requires |names| == |runs| && i < |names|
    ensures var os := TkOutcomes(names[..i + 1], runs[..i + 1], stop);
      var o := TkOutcome(names[i], runs[i], i, stop);
      && Successes(os) == Successes(TkOutcomes(names[..i], runs[..i], stop)) + (if o.Some? then [o.value] else [])
      && Failures(names[..i + 1], os)
         == Failures(names[..i], TkOutcomes(names[..i], runs[..i], stop)) + (if o.None? then [names[i]] else [])
  {
    TkOutcomesSnoc(names, runs, stop, i);
    var os := TkOutcomes(names[..i + 1], runs[..i + 1], stop);
    assert os[..i] == TkOutcomes(names[..i], runs[..i], stop);
    assert names[..i + 1][..i] == names[..i];
    OutcomesSnoc(names[..i + 1], os, i);
    assert os[..i + 1] == os;
    assert names[..i + 1][..i + 1] == names[..i + 1];
  }

  /** A flag read before the point contradicts every later read. */
  lemma SeenLater(stop: Option<Point>, p: Point, q: Point)
    requires NotBefore(q, p) && Seen(stop, p)
    ensures Seen(stop, q)
  {
  }

  /** While no read after a clone sees the flag, the Tk worker's results are those of
      the plain per-repository analysis. */
  lemma {:induction false} TkOutcomesUnstopped(names: seq<string>, runs: seq<GitRun>, stop: Option<Point>)
    requires |names| == |runs|
    requires names != [] ==> !Seen(stop, Point(|names| - 1, AfterClone))
    ensures TkOutcomes(names, runs, stop) == RepoOutcomes(names, runs)
  {
    if names != [] {
      var n := |names| - 1;
      if n > 0 && Seen(stop, Point(n - 1, AfterClone)) {
        SeenLater(stop, Point(n - 1, AfterClone), Point(n, AfterClone));
      }
      TkOutcomesUnstopped(names[..n], runs[..n], stop);
    }
  }

  /** Without a stop every repository is started, the results are those of the
      Streamlit batch, and every name is reported once. */
  lemma Unstopped(names: seq<string>, runs: seq<GitRun>)
    requires |names| == |runs|
    ensures Started(|names|, None) == |names|
    ensures TkOutcomes(names, runs, None) == RepoOutcomes(names, runs)
    ensures |Successes(TkOutcomes(names, runs, None))| + |Failures(names, TkOutcomes(names, runs, None))| == |names|
  {
    TkOutcomesUnstopped(names, runs, None);
    PartitionSizes(names, RepoOutcomes(names, runs));
  }

  /** A stop seen before repository `i` starts: exactly the first `i` repositories are
      started, each one reported once. */
  lemma StoppedBefore(names: seq<string>, runs: seq<GitRun>, i: nat)
    requires |names| == |runs| && i < |names|
    ensures var st := Some(Point(i, BeforeRepo));
      && Started(|names|, st) == i
      && TkOutcomes(names[..i], runs[..i], st) == RepoOutcomes(names[..i], runs[..i])
      && |Successes(TkOutcomes(names[..i], runs[..i], st))| + |Failures(names[..i], TkOutcomes(names[..i], runs[..i], st))| == i
  {
    var st := Some(Point(i, BeforeRepo));
    TkOutcomesUnstopped(names[..i], runs[..i], st);
    PartitionSizes(names[..i], RepoOutcomes(names[..i], runs[..i]));
  }

  /** A stop seen right after repository `i` was cloned: the loop ends after it, the
      earlier repositories keep their normal results, and repository `i` is reported
      as failed. */
  lemma StoppedAfterClone(names: seq<string>, runs: seq<GitRun>, i: nat)
    requires |names| == |runs| && i < |names|
    ensures var st := Some(Point(i, AfterClone));
      var os := TkOutcomes(names[..i + 1], runs[..i + 1], st);
      && Started(|names|, st) == i + 1
      && Successes(os) == Successes(RepoOutcomes(names[..i], runs[..i]))
      && Failures(names[..i + 1], os) == Failures(names[..i], RepoOutcomes(names[..i], runs[..i])) + [names[i]]
  {
    var st := Some(Point(i, AfterClone));
    TkStep(names, runs, st, i);
    assert TkOutcome(names[i], runs[i], i, st).None?;
    if i > 0 {
      assert !Seen(st, Point(i - 1, AfterClone));
    }
    TkOutcomesUnstopped(names[..i], runs[..i], st);
    assert Started(|names|, st) == i + 1;
  }

  /** Every success carries the name it was analysed for. */
  lemma {:induction false} TkOutcomesNamed(names: seq<string>, runs: seq<GitRun>, stop: Option<Point>)
    requires |names| == |runs|
    ensures forall i :: 0 <= i < |names| && TkOutcomes(names, runs, stop)[i].Some? ==>
      TkOutcomes(names, runs, stop)[i].value.name == names[i]
  {
    if names != [] {
      var n := |names| - 1;
      TkOutcomesNamed(names[..n], runs[..n], stop);
      var o := TkOutcome(names[n], runs[n], n, stop);
      if o.Some? {
        RepoOutcomeSpec(names[n], runs[n]);
      }
    }
  }

  /** A name that is not among the started ones appears in neither list. */
  lemma NotStartedAbsent(names: seq<string>, runs: seq<GitRun>, stop: Option<Point>, x: string)
    requires |names| == |runs|
    requires x !in names[..Started(|names|, stop)]
    ensures var m := Started(|names|, stop);
      var os := TkOutcomes(names[..m], runs[..m], stop);
      x !in Failures(names[..m], os) && forall r: RepoResult :: r in Successes(os) ==> r.name != x
  {
    var m := Started(|names|, stop);
    var ns := names[..m];
    var os := TkOutcomes(ns, runs[..m], stop);
    TkOutcomesNamed(ns, runs[..m], stop);
    Unrequested(ns, os, (r: RepoResult) => r.name, x);
  }

  class App {
    var analyzing: bool
    var stopRequested: bool
    /** `analysis_results`, present once an analysis has stored it. */
    var hasResults: bool
    var successfulRepos: seq<RepoResult>
    var failedRepos: seq<string>
    var saveEnabled: bool

    constructor ()
      ensures !analyzing && !stopRequested && !hasResults && !saveEnabled
      ensures successfulRepos == [] && failedRepos == []
    {
      analyzing := false;
      stopRequested := false;
      hasResults := false;
      successfulRepos := [];
      failedRepos := [];
      saveEnabled := false;
    }

    /** `start_analysis`: refuses an empty name list and a second run; otherwise marks
        the analysis as running with the stop flag cleared and the save button
        disabled, and hands the names to the worker. */
    method StartAnalysis(text: string) returns (started: bool, names: seq<string>)
      modifies this
      ensures names == RepoNamesOf(text)
      ensures started <==> names != [] && !old(analyzing)
      ensures started ==> analyzing && !stopRequested && !saveEnabled
      ensures !started ==> unchanged(this)
      ensures successfulRepos == old(successfulRepos) && failedRepos == old(failedRepos)
      ensures hasResults == old(hasResults)
    {
      names := GetRepoNames(text);
      if names == [] {
        return false, names;
      }
      if analyzing {
        return false, names;
      }
      analyzing := true;
      stopRequested := false;
      saveEnabled := false;
      started := true;
    }

    /** `stop_analysis`: sets the flag only while an analysis runs. */
    method StopAnalysis()
      modifies this`stopRequested
      ensures stopRequested == (old(stopRequested) || old(analyzing))
    {
      if analyzing {
        stopRequested := true;
      }
    }

    /** The read of the flag at point `p`: the UI may have set it by then. */
    method PollStop(stop: Option<Point>, p: Point) returns (seen: bool)
      modifies this`stopRequested
      ensures stopRequested == (old(stopRequested) || Seen(stop, p))
      ensures seen == stopRequested
    {
      stopRequested := stopRequested || Seen(stop, p);
      seen := stopRequested;
    }

    /** The worker's `analyze_single_repo` for repository `i`. */
    method AnalyzeSingleRepo(name: string, run: GitRun, i: nat, stop: Option<Point>) returns (r: Option<RepoResult>)
      requires !stopRequested
      modifies this`stopRequested
      ensures r == TkOutcome(name, run, i, stop)
      ensures stopRequested ==> Seen(stop, Point(i, AfterClone))
    {
      if run.CloneFailed? {
        return None;
      }
      var seen := PollStop(stop, Point(i, AfterClone));
      if seen {
        return None;
      }
      r := RepoAnalysis.AnalyzeSingleRepo(name, run);
    }

    /** One started repository: its analysis, then the read after it (`AfterRepo`). */
    method AnalyzeStarted(name: string, run: GitRun, i: nat, stop: Option<Point>) returns (r: Option<RepoResult>, seen: bool)
      requires !stopRequested
      modifies this`stopRequested
      ensures r == TkOutcome(name, run, i, stop)
      ensures stopRequested == Seen(stop, Point(i, AfterRepo)) && seen == stopRequested
    {
      r := AnalyzeSingleRepo(name, run, i, stop);
      seen := PollStop(stop, Point(i, AfterRepo));
    }

    /** One turn of the worker's loop for repository `i`: the read before it, then,
        when that does not see the flag, the repository and the read after it. */
    method RepoTurn(name: string, run: GitRun, i: nat, stop: Option<Point>) returns (started: bool, r: Option<RepoResult>, seen: bool)
      requires i > 0 ==> !stopRequested
      modifies this`stopRequested
      ensures started <==> !old(stopRequested) && !Seen(stop, Point(i, BeforeRepo))
      ensures started ==> r == TkOutcome(name, run, i, stop)
      ensures started ==> stopRequested == Seen(stop, Point(i, AfterRepo)) && seen == stopRequested
      ensures !started ==> stopRequested
    {
      seen := PollStop(stop, Point(i, BeforeRepo));
      if seen {
        return false, None, seen;
      }
      started := true;
      r, seen := AnalyzeStarted(name, run, i, stop);
    }

    /** `analyze_repositories`, the worker: the flag is read before and after each
        repository and inside it; the loop ends at the first read that sees it. The
        lists of the names started are stored as `analysis_results`. */
    method AnalyzeRepositories(names: seq<string>, runs: seq<GitRun>, stop: Option<Point>)
      requires |names| == |runs|
      modifies this`stopRequested, this`successfulRepos, this`failedRepos, this`hasResults
      ensures var eff := Effective(old(stopRequested), stop);
        var m := Started(|names|, eff);
        && successfulRepos == Successes(TkOutcomes(names[..m], runs[..m], eff))
        && failedRepos == Failures(names[..m], TkOutcomes(names[..m], runs[..m], eff))
      ensures hasResults
      ensures stopRequested == FinalFlag(old(stopRequested), |names|, stop)
    {
      ghost var requested := stopRequested;
      ghost var eff := Effective(requested, stop);
      ghost var n := |names|;
      ghost var m := Started(n, eff);
      var successful: seq<RepoResult> := [];
      var failed: seq<string> := [];
      var i := 0;
      var halted := false;
      while i < |names| && !halted
        invariant 0 <= i <= n && i <= m
        invariant !halted && i > 0 ==> !requested && !Seen(stop, Point(i - 1, AfterRepo)) && !stopRequested
        invariant !halted && i == 0 ==> stopRequested == requested
        invariant halted ==> i == m && stopRequested == FinalFlag(requested, n, stop)
        invariant successful == Successes(TkOutcomes(names[..i], runs[..i], eff))
        invariant failed == Failures(names[..i], TkOutcomes(names[..i], runs[..i], eff))
        decreases n - i, if halted then 0 else 1
        modifies this`stopRequested
      {
        var started, result, seen := RepoTurn(names[i], runs[i], i, stop);
        if !started {
          ExitBefore(requested, stop, n, i);
          halted := true;
        } else {
          StartedAt(n, eff, i);
          TkStep(names, runs, eff, i);
          if result.Some? {
            successful := successful + [result.value];
          } else {
            failed := failed + [names[i]];
          }
          i := i + 1;
          if seen {
            ExitAfter(requested, stop, n, i);
            halted := true;
          }
        }
      }
      successfulRepos := successful;
      failedRepos := failed;
      hasResults := true;
    }

    /** `analysis_finished`: the analysis is over, and saving is offered when the
        stored results hold a successful repository. */
    method AnalysisFinished()
      modifies this`analyzing, this`saveEnabled
      ensures !analyzing
      ensures saveEnabled == (old(saveEnabled) || (hasResults && successfulRepos != []))
    {
      analyzing := false;
      if hasResults && successfulRepos != [] {
        saveEnabled := true;
      }
    }

    /** The worker over the names `start_analysis` handed on (with the git outcome
        of each), then `analysis_finished`: saving is offered exactly when this run
        stored a successful repository. */
    method RunStarted(names: seq<string>, runs: seq<GitRun>, stop: Option<Point>)
      requires |names| == |runs| && !stopRequested && !saveEnabled
      modifies this`stopRequested, this`successfulRepos, this`failedRepos, this`hasResults
      modifies this`analyzing, this`saveEnabled
      ensures !analyzing && hasResults
      ensures saveEnabled <==> successfulRepos != []
      ensures var m := Started(|names|, stop);
        successfulRepos == Successes(TkOutcomes(names[..m], runs[..m], stop))
    {
      AnalyzeRepositories(names, runs, stop);
      AnalysisFinished();
    }

    /** A whole run as the button starts it: `start_analysis`, then, when it starts,
        the worker and `analysis_finished`. A run that started leaves saving offered
        exactly when it produced a successful repository, whatever an earlier run
        left behind. */
    method AnalysisRun(text: string, runs: seq<GitRun>, stop: Option<Point>) returns (started: bool, names: seq<string>)
      requires |runs| == |RepoNamesOf(text)|
      modifies this
      ensures names == RepoNamesOf(text)
      ensures started <==> names != [] && !old(analyzing)
      ensures started ==> !analyzing && hasResults && (saveEnabled <==> successfulRepos != [])
      ensures !started ==> unchanged(this)
    {
      started, names := StartAnalysis(text);
      if started {
        RunStarted(names, runs, stop);
      }
    }
  }
}
