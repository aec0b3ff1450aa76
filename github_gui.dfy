/** The URL-list GUI (`github_analyzer_gui.py`): a duplicate-free list of clone URLs
    edited by bulk adds and removals, the analysis that merges every non-empty mapping
    and summarises its repository, and the results view. */
module GithubGui {
  import opened Optional
  import opened PyStr
  import opened Counts
  import opened Ranking
  import opened Shortlog
  import opened RepoNames
  import opened RepoAnalysis
  import opened Outcomes
  import opened Aggregate
  import SummaryLoop

  predicate NoDups(s: seq<string>) {
    forall i, j :: 0 <= i < j < |s| ==> s[i] != s[j]
  }

  function Elems(s: seq<string>): set<string> {
    set x | x in s
  }

  // ---------------------------------------------------------------------------
  // Bulk add

  /** `[line.strip() for line in text.split('\n') if line.strip()]` */
  function NonBlankLine(raw: string): Option<string> {
    if Strip(raw) == [] then None else Some(Strip(raw))
  }

  /** The URL a stripped line contributes: the prefixes removed, then the organisation
      URL of what is left, unless nothing is left. */
  function LineUrl(line: string): Option<string> {
    var name := RemovePrefixes(line);
    if name == [] then None else Some(TrUrl(name))
  }

  /** The same, from a raw line. */
  function BulkUrlLine(raw: string): Option<string> {
    match BulkLine(raw) case Some(name) => Some(TrUrl(name)) case None => None
  }

  /** The URLs a text proposes, in input order: the organisation URLs of the names the
      bulk Tk tool would read from it. */
  function Candidates(text: string): seq<string> {
    Kept(Split(Strip(text), '\n'), BulkUrlLine)
  }

  /** The candidates appended in order, each only when it is not there yet. */
  function AppendNew(urls: seq<string>, cs: seq<string>): seq<string> {
    if cs == [] then urls
    else
      var prior := AppendNew(urls, cs[..|cs| - 1]);
      var c := cs[|cs| - 1];
      if c in prior then prior else prior + [c]
  }

  /** One more candidate, or none: a new URL is appended to the current list. */
  lemma AppendNewSnoc(urls: seq<string>, cs: seq<string>, c: Option<string>, cur: seq<string>)
    requires cur == AppendNew(urls, cs)
    ensures AppendNew(urls, cs + (match c case Some(u) => [u] case None => []))
         == if c.Some? && c.value !in cur then cur + [c.value] else cur
  {
    if c.Some? {
      assert (cs + [c.value])[..|cs|] == cs;
    } else {
      assert cs + [] == cs;
    }
  }

  /** The old list is kept as a prefix, the list stays duplicate-free, and it holds
      exactly the old URLs and the candidates. */
  lemma {:induction false} AppendNewSpec(urls: seq<string>, cs: seq<string>)
    ensures urls <= AppendNew(urls, cs)
    ensures NoDups(urls) ==> NoDups(AppendNew(urls, cs))
    ensures forall u :: u in AppendNew(urls, cs) <==> u in urls || u in cs
  {
    if cs != [] {
      var n := |cs| - 1;
      AppendNewSpec(urls, cs[..n]);
      assert cs == cs[..n] + [cs[n]];
      forall u ensures u in cs <==> u in cs[..n] || u == cs[n] {
        assert u in cs[..n] ==> u in cs;
      }
    }
  }

  /** Candidates that are all present already add nothing. */
  lemma {:induction false} AppendNewPresent(urls: seq<string>, cs: seq<string>)
    requires forall c :: c in cs ==> c in urls
    ensures AppendNew(urls, cs) == urls
  {
    if cs != [] {
      var n := |cs| - 1;
      assert forall c :: c in cs[..n] ==> c in cs;
      AppendNewPresent(urls, cs[..n]);
      assert cs[n] in cs;
    }
  }

  /** Adding the same text a second time adds nothing. */
  lemma AppendNewAgain(urls: seq<string>, cs: seq<string>)
    ensures AppendNew(AppendNew(urls, cs), cs) == AppendNew(urls, cs)
  {
    AppendNewSpec(urls, cs);
    AppendNewPresent(AppendNew(urls, cs), cs);
  }

  lemma {:induction false} DistinctSize(s: seq<string>)
    requires NoDups(s)
    ensures |Elems(s)| == |s|
  {
    if s != [] {
      var n := |s| - 1;
      assert NoDups(s[..n]);
      DistinctSize(s[..n]);
      assert Elems(s) == Elems(s[..n]) + {s[n]} by {
        assert s == s[..n] + [s[n]];
      }
      assert s[n] !in Elems(s[..n]);
    }
  }

  /** The count of added URLs is the number of distinct candidates not listed before. */
  lemma AddedCount(urls: seq<string>, cs: seq<string>)
    requires NoDups(urls)
    ensures |AppendNew(urls, cs)| - |urls| == |Elems(cs) - Elems(urls)|
  {
    var r := AppendNew(urls, cs);
    AppendNewSpec(urls, cs);
    DistinctSize(urls);
    DistinctSize(r);
    assert Elems(r) == Elems(urls) + (Elems(cs) - Elems(urls));
    assert Elems(urls) * (Elems(cs) - Elems(urls)) == {};
  }

  /** Every candidate is an organisation URL of a non-empty name. */
  lemma CandidatesShape(text: string)
    ensures forall u :: u in Candidates(text) ==> StartsWith(u, TrPrefix) && |u| > |TrPrefix|
  {
    var lines := Split(Strip(text), '\n');
    forall i | 0 <= i < |lines| && BulkUrlLine(lines[i]).Some?
      ensures var u := BulkUrlLine(lines[i]).value; StartsWith(u, TrPrefix) && |u| > |TrPrefix|
    {
      var name := BulkLine(lines[i]).value;
      assert TrUrl(name)[|TrPrefix|..] == name;
    }
    KeptSpec(lines, BulkUrlLine, (u: string) => StartsWith(u, TrPrefix) && |u| > |TrPrefix|);
  }

  /** Filtering the lines first and then mapping them gives the URLs of the raw lines. */
  lemma KeptLines(lines: seq<string>)
    ensures Kept(Kept(lines, NonBlankLine), LineUrl) == Kept(lines, BulkUrlLine)
  {
    forall x ensures BulkUrlLine(x) == (match NonBlankLine(x) case Some(l) => LineUrl(l) case None => None) {
    }
    KeptThen(lines, NonBlankLine, LineUrl, BulkUrlLine);
  }

  /** The candidates of a text are those of its stripped non-blank lines. */
  lemma CandidateLines(text: string)
    ensures Candidates(text) == Kept(Kept(Split(Strip(text), '\n'), NonBlankLine), LineUrl)
  {
    KeptLines(Split(Strip(text), '\n'));
  }

  /** A blank text proposes nothing. */
  lemma BlankNoCandidates(text: string)
    requires Strip(text) == []
    ensures Candidates(text) == []
  {
    var lines := Split(Strip(text), '\n');
    assert lines == [""] by { SplitFree(Strip(text), '\n'); }
    assert Kept(lines, BulkUrlLine) == Kept(lines[..0], BulkUrlLine) + [];
  }

  /** `del urls[k]` */
  function RemoveAt(s: seq<string>, k: nat): (r: seq<string>)
    requires k < |s|
  {
    s[..k] + s[k + 1..]
  }

  /** Removing an entry keeps the others in order; in a duplicate-free list the removed
      URL is gone and the list stays duplicate-free. */
  lemma RemoveAtSpec(s: seq<string>, k: nat)
    requires k < |s|
    ensures |RemoveAt(s, k)| == |s| - 1
    ensures forall i :: 0 <= i < |s| - 1 ==> RemoveAt(s, k)[i] == (if i < k then s[i] else s[i + 1])
    ensures NoDups(s) ==> NoDups(RemoveAt(s, k)) && s[k] !in RemoveAt(s, k)
  {
    var r := RemoveAt(s, k);
    if NoDups(s) {
      forall i, j | 0 <= i < j < |r| ensures r[i] != r[j] {
        var i' := if i < k then i else i + 1;
        var j' := if j < k then j else j + 1;
        assert r[i] == s[i'] && r[j] == s[j'];
      }
    }
  }

  // ---------------------------------------------------------------------------
  // Fetching one repository

  /** `analyze_single_repo(url)`: the mapping and `url.split('/')[-1].replace('.git', '')`;
      on any exception `{}` and the unmodified last segment. */
  function GithubFetch(url: string, run: GitRun): (Tally, string) {
    match run
    case Log(out) =>
      (match Records(out)
       case Some(es) => (FromEntries(es), RepoNameOf(url))
       case None => ([], LastSegment(url, '/')))
    case _ => ([], LastSegment(url, '/'))
  }

  /** The fetched mapping is the shared one, and the name of a non-empty mapping is the
      repository name without `.git`, so the failure name never reaches a summary. */
  lemma GithubFetchSpec(url: string, run: GitRun)
    ensures GithubFetch(url, run).0 == MappingOf(run)
    ensures GithubFetch(url, run).0 != [] ==> GithubFetch(url, run).1 == RepoNameOf(url)
  {
  }

  // ---------------------------------------------------------------------------
  // The results view

  /** Every summary of the window is named after its URL with `.git` removed: the
      unmodified segment of a failure never reaches a summary. */
  lemma SummariesNamed(urls: seq<string>, runs: seq<GitRun>)
    requires |urls| == |runs|
    ensures NamedBy(Successes(SummaryOutcomes(urls, Fetched(urls, runs, GithubFetch))), RepoNameOf)
  {
    var fs := Fetched(urls, runs, GithubFetch);
    forall i | 0 <= i < |fs| && fs[i].0 != [] ensures fs[i].1 == RepoNameOf(urls[i]) {
      FetchedAt(urls, runs, GithubFetch, i);
      GithubFetchSpec(urls[i], runs[i]);
    }
    SummaryNamed(urls, fs, RepoNameOf);
  }

  /** The loop of `add_bulk_urls` over the stripped non-blank lines: each URL a line
      yields is appended when it is not in the list yet, and the appended ones are
      counted. */
  method AppendLines(start: seq<string>, lines: seq<string>) returns (urls: seq<string>, added: nat)
    ensures urls == AppendNew(start, Kept(lines, LineUrl))
    ensures added == |urls| - |start|
  {
    urls := start;
    added := 0;
    var i := 0;
    while i < |lines|
      invariant 0 <= i <= |lines|
      invariant urls == AppendNew(start, Kept(lines[..i], LineUrl))
      invariant |urls| == |start| + added
    {
      var url := LineUrl(lines[i]);
      KeptSnoc(lines, i, LineUrl);
      AppendNewSnoc(start, Kept(lines[..i], LineUrl), url, urls);
      if url.Some? && url.value !in urls {
        urls := urls + [url.value];
        added := added + 1;
      }
      i := i + 1;
    }
    assert lines[..i] == lines;
  }

  /** What `add_bulk_urls` does to the list for a given text: a blank text adds
      nothing, otherwise the loop runs over its stripped non-blank lines. */
  method BulkAdd(start: seq<string>, text: string) returns (urls: seq<string>, added: nat)
    ensures urls == AppendNew(start, Candidates(text))
    ensures added == |urls| - |start|
  {
    var content := Strip(text);
    if content == [] {
      BlankNoCandidates(text);
      return start, 0;
    }
    CandidateLines(text);
    urls, added := AppendLines(start, Kept(Split(content, '\n'), NonBlankLine));
  }

  // ---------------------------------------------------------------------------
  // The window

  class Window {
    var urls: seq<string>
    /** The text of the bulk input box. */
    var inputText: string
    var analyzing: bool

    constructor ()
      ensures urls == [] && inputText == [] && !analyzing
    {
      urls := [];
      inputText := [];
      analyzing := false;
    }

    /** `add_bulk_urls`: each new candidate of the input box is appended; the box is
        cleared when something was added. */
    method AddBulkUrls() returns (added: nat)
      modifies this`urls, this`inputText
      ensures urls == AppendNew(old(urls), Candidates(old(inputText)))
      ensures added == |urls| - |old(urls)|
      ensures inputText == if added > 0 then [] else old(inputText)
    {
      var grown;
      grown, added := BulkAdd(urls, inputText);
      urls := grown;
      if added > 0 {
        inputText := [];
      }
    }

    /** `remove_url`: the selected entry is deleted; without a selection nothing
        changes. The list box mirrors `urls`, so a selection is one of its indices. */
    method RemoveUrl(selection: Option<nat>)
      requires selection.Some? ==> selection.value < |urls|
      modifies this`urls
      ensures urls == if selection.None? then old(urls) else RemoveAt(old(urls), selection.value)
    {
      if selection.Some? {
        urls := urls[..selection.value] + urls[selection.value + 1..];
      }
    }

    /** `clear_urls`: empties the list once the user confirms. */
    method ClearUrls(confirmed: bool)
      modifies this`urls
      ensures urls == if old(urls) != [] && confirmed then [] else old(urls)
    {
      if urls != [] && confirmed {
        urls := [];
      }
    }

    /** `start_analysis`: refuses an empty list and a second run. */
    method StartAnalysis() returns (started: bool)
      modifies this`analyzing
      ensures started <==> old(urls) != [] && !old(analyzing)
      ensures analyzing == (old(analyzing) || started)
    {
      if urls == [] {
        return false;
      }
      if analyzing {
        return false;
      }
      analyzing := true;
      started := true;
    }

    /** `analyze_repositories`: the shared URL-list loop over the listed URLs. */
    method AnalyzeRepositories(runs: seq<GitRun>) returns (all: Tally, summaries: seq<RepoSummary>)
      requires |runs| == |urls|
      ensures all == MergeAll(Mappings(Fetched(urls, runs, GithubFetch)))
      ensures summaries == Successes(SummaryOutcomes(urls, Fetched(urls, runs, GithubFetch)))
    {
      all, summaries := SummaryLoop.CollectSummaries(urls, runs, GithubFetch);
    }

    /** `display_results`: the analysis is over, and the view is shown. */
    method DisplayResults(all: Tally, summaries: seq<RepoSummary>) returns (v: SummaryView)
      modifies this`analyzing
      ensures !analyzing
      ensures v == ViewOf(all, summaries)
    {
      analyzing := false;
      v := SummaryLoop.ShowResults(all, summaries);
    }
  }
}
