/** The interactive multi-repository tool: URLs typed one per line until a blank line
    or `done`, the shared URL-list loop over them, and the results view. */
module MultiRepo {
  import opened Optional
  import opened Counts
  import opened Shortlog
  import opened RepoNames
  import opened RepoAnalysis
  import opened Outcomes
  import opened Aggregate
  import SummaryLoop
  import PyStr

  /** `get_contributors_from_url`: the mapping, `{}` on any failure, and the name
      `url.split('/')[-1].replace('.git', '')`, which is computed before the clone and
      so is returned on failure too. */
  function MultiFetch(url: string, run: GitRun): (Tally, string) {
    (MappingOf(run), RepoNameOf(url))
  }

  /** Every summary is named after its URL with `.git` removed. */
  lemma SummariesNamed(urls: seq<string>, runs: seq<GitRun>)
    requires |urls| == |runs|
    ensures NamedBy(Successes(SummaryOutcomes(urls, Fetched(urls, runs, MultiFetch))), RepoNameOf)
  {
    var fs := Fetched(urls, runs, MultiFetch);
    forall i | 0 <= i < |fs| && fs[i].0 != [] ensures fs[i].1 == RepoNameOf(urls[i]) {
      FetchedAt(urls, runs, MultiFetch, i);
    }
    SummaryNamed(urls, fs, RepoNameOf);
  }

  /** A run of `main`: the lines ran out at a prompt (`input()` raises EOFError),
      nothing when no URL was accepted, otherwise the view. */
  datatype MultiRun = InputEnded | NoUrls | Analyzed(urls: seq<string>, view: SummaryView)

  /** The lines reach the end marker and, once a URL was accepted, also the line read
      by the "Press Enter to start analysis" prompt after it. */
  predicate InputSuffices(inputs: seq<string>) {
    match EndAt(inputs, EndsInput)
    case None => false
    case Some(k) => UrlsFromUser(inputs) == [] || k + 1 < |inputs|
  }

  /** `main`, with the typed lines and one pair of `git` runs per accepted URL. */
  method Analyze(inputs: seq<string>, runs: seq<GitRun>) returns (r: MultiRun)
    requires |runs| == |UrlsFromUser(inputs)|
    ensures r.InputEnded? <==> !InputSuffices(inputs)
    ensures r.NoUrls? <==> InputSuffices(inputs) && UrlsFromUser(inputs) == []
    ensures r.Analyzed? ==>
      var urls := UrlsFromUser(inputs);
      var fs := Fetched(urls, runs, MultiFetch);
      r == Analyzed(urls, ViewOf(MergeAll(Mappings(fs)), Successes(SummaryOutcomes(urls, fs))))
  {
    var read, next := GetUrlsFromUser(inputs);
    if read.None? {
      return InputEnded;
    }
    var urls := read.value;
    if urls == [] {
      return NoUrls;
    }
    if next >= |inputs| {
      // input("Press Enter to start analysis...") finds no line
      return InputEnded;
    }
    var all, summaries := SummaryLoop.CollectSummaries(urls, runs, MultiFetch);
    var view := SummaryLoop.ShowResults(all, summaries);
    r := Analyzed(urls, view);
  }

  /** Typing `a/b` and then nothing ends input inside the URL loop. */
  lemma EndInUrlLoop()
    ensures !InputSuffices(["a/b"])
  {
    TypedShorthand();
    RunOutAfterEntry(["a/b"]);
  }

  /** Typing `a/b` and a blank line ends input at the "Press Enter" prompt. */
  lemma EndAtStartPrompt()
    ensures !InputSuffices(["a/b", ""])
  {
    TypedShorthand();
    BlankEnds();
    EndAfterEntry(["a/b", ""]);
  }

  /** One more line after the blank line starts the analysis. */
  lemma StartAfterPrompt()
    ensures InputSuffices(["a/b", "", ""])
  {
    TypedShorthand();
    BlankEnds();
    EndAfterEntry(["a/b", "", ""]);
  }

  /** A single line that does not end the input: the lines run out. */
  lemma RunOutAfterEntry(inputs: seq<string>)
    requires |inputs| == 1 && !EndsInput(inputs[0])
    ensures EndAt(inputs, EndsInput).None?
  {
  }

  /** A URL line followed by an end marker: the marker is the second line, after one
      URL. */
  lemma EndAfterEntry(inputs: seq<string>)
    requires |inputs| >= 2 && !EndsInput(inputs[0]) && InputUrl(inputs[0]).Some? && EndsInput(inputs[1])
    ensures EndAt(inputs, EndsInput) == Some(1)
    ensures UrlsFromUser(inputs) != []
  {
    var rest := inputs[1..];
    assert rest[0] == inputs[1];
    assert EndAt(rest, EndsInput) == Some(0);
  }

  /** A blank line is an end marker. */
  lemma BlankEnds()
    ensures EndsInput("")
  {
    assert PyStr.Strip("") == [];
  }

  /** `a/b` does not end the input and is completed to a GitHub URL. */
  lemma TypedShorthand()
    ensures !EndsInput("a/b") && InputUrl("a/b") == Some(GithubPrefix + "a/b")
  {
    PyStr.StripPadded("", "a/b");
    assert "" + "a/b" == "a/b";
    assert |PyStr.Lower("a/b")| == 3;
    assert !PyStr.StartsWith("a/b", "http");
  }

  /** A run analyses only URLs (each starts with `http`) and shows no contributors
      exactly when no repository was summarised. */
  lemma AnalyzeSpec(inputs: seq<string>, runs: seq<GitRun>)
    requires |runs| == |UrlsFromUser(inputs)|
    ensures var urls := UrlsFromUser(inputs);
      var fs := Fetched(urls, runs, MultiFetch);
      var ss := Successes(SummaryOutcomes(urls, fs));
      && (forall u :: u in urls ==> IsUrl(u))
      && (ViewOf(MergeAll(Mappings(fs)), ss).NoContributors? <==> ss == [])
  {
    UrlsFromUserSpec(inputs, 0);
    ViewSpec(UrlsFromUser(inputs), runs, MultiFetch);
  }
}
