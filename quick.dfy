/** The single-repository quick tool: one URL from the command line or typed, checked
    and completed, then the first five shortlog records and the repository totals. */
module Quick {
  import opened Optional
  import opened PyStr
  import opened Counts
  import opened Shortlog
  import opened Ranking
  import opened RepoNames
  import opened RepoAnalysis

  /** The `top_n` default of `get_top_contributors`, the value `main` uses. */
  const TopN: nat := 5

  /** What `get_top_contributors` prints: the first `top_n` records and the totals. */
  datatype QuickReport = QuickReport(top: seq<Entry>, totalContributors: nat, totalCommits: int)

  function ReportOf(es: seq<Entry>, topN: nat): QuickReport {
    QuickReport(Take(es, topN), |es|, Sum(es))
  }

  /** `get_top_contributors`: the record list (repeats kept, shortlog order), its
      first `top_n` records, `sum` of the counts and `len` of the list; `None` when the
      clone or the shortlog fails or a count is not an integer. */
  method GetTopContributors(run: GitRun, topN: nat) returns (r: Option<QuickReport>)
    ensures r.None? <==> RecordsOf(run).None?
    ensures r.Some? ==> r.value == ReportOf(RecordsOf(run).value, topN)
  {
    var records := FetchRecords(run);
    if records.None? {
      return None;
    }
    var es := records.value;
    r := Some(QuickReport(Take(es, topN), |es|, Sum(es)));
  }

  /** The report keeps shortlog order and cuts it, with no re-sorting; it counts every
      record, so an author listed twice is counted twice, and it agrees with the
      author mapping of the other tools exactly when no author repeats. */
  lemma ReportSpec(run: GitRun, topN: nat)
    requires RecordsOf(run).Some?
    ensures var es := RecordsOf(run).value;
      var q := ReportOf(es, topN);
      && |q.top| == (if topN < |es| then topN else |es|)
      && q.top == es[..|q.top|]
      && q.totalContributors >= |MappingOf(run)|
      && (UniqueKeys(es) ==> q.totalContributors == |MappingOf(run)| && q.totalCommits == Sum(MappingOf(run)))
  {
    var es := RecordsOf(run).value;
    RecordsAndMapping(run);
    FromEntriesSpec(es);
    MappingOfSpec(run);
    UniqueKeysSize(MappingOf(run));
    KeySetBound(es);
    if UniqueKeys(es) {
      FromDistinctEntries(es);
    }
  }

  /** There are no more authors than records. */
  lemma {:induction false} KeySetBound(es: seq<Entry>)
    ensures |KeySet(es)| <= |es|
  {
    if es != [] {
      KeySetBound(es[1..]);
    }
  }

  /** A run of `main`: standard input ended at the prompt (`input()` raises EOFError),
      no URL, a slash-free non-URL, a failed analysis (the error is printed), or the
      report for the completed URL. */
  datatype QuickRun = InputEnded | NoUrl | InvalidUrl | Failed(url: string) | Report(url: string, report: QuickReport)

  /** `sys.argv[1]` when given (taken as it is), otherwise the typed line stripped;
      `None` when there is no argument and standard input has no line. */
  function Given(args: seq<string>, typed: Option<string>): Option<string> {
    if args != [] then Some(args[0])
    else match typed case Some(line) => Some(Strip(line)) case None => None
  }

  /** `main`, with the command-line arguments after the program name, the typed line
      (`None` at end of input) and the `git` runs of the one repository. */
  method Run(args: seq<string>, typed: Option<string>, run: GitRun) returns (r: QuickRun)
    ensures r.InputEnded? <==> args == [] && typed.None?
    ensures r.NoUrl? <==> Given(args, typed) == Some([])
    ensures r.InvalidUrl? <==>
      Given(args, typed).Some? &&
      var g := Given(args, typed).value;
      g != [] && !StartsWith(g, "http") && '/' !in g
    ensures r.Failed? || r.Report? ==>
      Given(args, typed).Some? && CheckedUrl(Given(args, typed).value) == Some(r.url) &&
      StartsWith(r.url, "http")
    ensures r.Failed? <==>
      Given(args, typed).Some? && CheckedUrl(Given(args, typed).value).Some? && RecordsOf(run).None?
    ensures r.Report? ==> r.report == ReportOf(RecordsOf(run).value, TopN)
  {
    var url: string;
    if args != [] {
      url := args[0];
    } else if typed.Some? {
      url := Strip(typed.value);
    } else {
      return InputEnded;
    }
    CheckedUrlSpec(url);
    if url == [] {
      return NoUrl;
    }
    var checked := CheckedUrl(url);
    if checked.None? {
      return InvalidUrl;
    }
    var report := GetTopContributors(run, TopN);
    if report.None? {
      return Failed(checked.value);
    }
    r := Report(checked.value, report.value);
  }
}
