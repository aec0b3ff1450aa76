# REPOcontributor in Dafny

REPOcontributor is a set of small Python tools that clone GitHub repositories, run
`git shortlog -sn --all` in each clone and rank the authors by commit count. The tools are:

- a Streamlit page (`top_contributors_streamlit.py`);
- two Tk windows (`top_contributors_gui.py` and `tr_bulk_analyzer.py`);
- a third Tk window that keeps a URL list (`github_analyzer_gui.py`);
- four command-line scripts (`repo_contributor_analyzer.py`, `multi_repo_analyzer.py`,
  `quick_contributors.py`, `batch_analyzer.py`).

They share one pipeline. Each script has its own copy of it, and the copies differ in small
but visible ways:

1. **Input.** Repository names or URLs are read from a text area, the prompt or the command
   line, then cleaned: prefixes are removed, `#` comments skipped, slashes stripped and
   `owner/repo` shorthands completed.
2. **Cloning and parsing.** Each repository is cloned, and its shortlog is parsed line by
   line into an author mapping. The `count\tauthor` records are kept, lines without a tab are
   skipped, and a malformed count aborts the repository.
3. **Merging.** The per-repository mappings are merged Counter-style.
4. **Ranking.** The merged authors are ranked with a stable descending sort on the count.
   Ties keep their first-encountered order.
5. **Human filter.** On the Streamlit page, bots and automated accounts are filtered out
   with sixteen regular expressions and a digits-only test.
6. **Batch loop.** The loop over repositories sorts each one into successful results and
   failed names. In `top_contributors_gui.py` a stop flag, set from the UI thread, is read
   before each repository, after the clone and after each repository.

## How the model is built

- **Author mappings.** An author mapping is an insertion-ordered association list,
  `Counts.Tally`, because Python dicts keep insertion order and the ranking depends on it.
  `Counts.Put` is dict assignment: an existing key keeps its place and a new key is
  appended. `Counts.Merge` is the Counter `+=` loop.
- **Python built-ins.** The built-ins the scripts rely on are written out in `PyStr`:
  `str.strip`, `strip('/')`, `replace`, `split('\n')`, `split('\t', 1)`, `lower` and `int`.
- **Git.** The `git` subprocess is an input of type `Shortlog.GitRun`: the clone failed, the
  shortlog failed, or the shortlog printed this text. A batch receives one run per
  repository.
- **Stop flag.** The Tk stop flag is modelled as an `Option<TkGui.Point>`. It names the
  first of the worker's flag reads that sees the flag set. A Point is a repository index
  plus the phase of the read: before the repository, after the clone, or after the
  repository.
- **Functions and methods.** Pure logic is written as functions with lemmas. Each loop of
  the source is a `method` proved against the function that specifies it. Objects whose
  fields the handlers update are classes: the Streamlit session state, the three Tk
  windows and their flags.

## Model

| member | source | states |
|---|---|---|
| `PyStr.Trim` | top_contributors_streamlit.py:155-157 | `strip()` removes exactly the leading and trailing whitespace: the result is empty iff the line is all whitespace, has no whitespace at either end, and equals the line when it has no whitespace at all |
| `PyStr.Split` | top_contributors_streamlit.py:155 | `split('\n')` gives at least one part and no part contains the separator |
| `PyStr.JoinSplit` | top_contributors_streamlit.py:155 | joining the parts of `split('\n')` with the separator gives back the text |
| `PyStr.SplitJoin` | top_contributors_streamlit.py:155 | splitting a join of separator-free parts gives back the parts |
| `PyStr.SplitOnce` | top_contributors_streamlit.py:157-158 | `split('\t', 1)` has two parts iff the line contains a tab; then the first part is tab-free and the parts rejoin to the line |
| `PyStr.ParseIntShow` | top_contributors_streamlit.py:159 | `int()` reads back a decimal count, whatever whitespace pads it |
| `PyStr.NumeralDigits` | top_contributors_streamlit.py:159 | underscores in a numeral only group digits: its value is that of the same digits with the underscores left out, and a numeral keeps at least one digit |
| `PyStr.ParseIntUnderscored` | top_contributors_streamlit.py:159 | `int()` of a stripped numeral (digits with single underscores between them) is the decimal value of its digits alone |
| `PyStr.Replace` | top_contributors_streamlit.py:316 | `replace` leaves a string without the pattern unchanged |
| `PyStr.ReplaceAtFirst` | top_contributors_streamlit.py:316 | `replace` scans leftmost-first: the text before the earliest occurrence is kept unchanged, that occurrence becomes the replacement, and scanning resumes after it; with the pattern-free case this determines `replace` on every string |
| `Counts.Put` | top_contributors_streamlit.py:161 | dict assignment: the key set gains the author, the author reads the new count and every other key keeps its count; existing keys keep their positions; a new author is appended; distinct keys stay distinct |
| `Counts.FromEntriesSpec` | top_contributors_streamlit.py:152-161 | the mapping built from the records has distinct keys, one per author, and each author's count is the count of that author's last record |
| `Counts.FromDistinctEntries` | top_contributors_streamlit.py:152-161 | when no author repeats, the mapping is the record list itself, in shortlog order |
| `Counts.SumAdd` | batch_analyzer.py:63-64 | Counter `+=` raises the total by the added count |
| `Counts.SumPut` | top_contributors_streamlit.py:161 | assignment changes the total by the new count minus the old count |
| `Counts.MergeSpec` | top_contributors_streamlit.py:412-417 | merging a mapping into an accumulator adds each author's count to its running total; keys are the union; totals add; existing authors keep their positions |
| `Counts.MergeAllSpec` | top_contributors_streamlit.py:411-417 | the merge of all mappings has one key per author of any repository, each author's count is the sum over repositories, and the total is the sum of all totals |
| `Counts.MergeAllMap` | batch_analyzer.py:59-64 | as a dictionary, the merged Counter maps each author of any repository to its summed count |
| `Counts.SumOverPermutation` | batch_analyzer.py:61-64 | an author's summed count is the same for any reordering of the per-repository mappings |
| `Counts.UnionKeysPermutation` | batch_analyzer.py:61-64 | the set of authors is the same for any reordering of the per-repository mappings |
| `Counts.MergeAllPermutation` | batch_analyzer.py:61-64 | as a dictionary, the merged Counter is the same for any reordering of the repositories (equal multisets of mappings) |
| `Counts.FromEntriesPositive` | top_contributors_streamlit.py:152-163 | positive record counts give a mapping with positive counts whose total is at most the running total of the records |
| `Counts.CountOfBounds` | top_contributors_streamlit.py:412-417 | with positive counts, an author's count added over one mapping lies between 0 and that mapping's total, and is positive for each of its authors |
| `Counts.SumOverBounds` | top_contributors_streamlit.py:411-417 | with positive counts, an author's count summed over all repositories lies between 0 and the total of all mappings, and is positive for each author of any repository |
| `Counts.UniqueKeysSize` | top_contributors_streamlit.py:169 | `len(contributors)` is the number of distinct authors |
| `Shortlog.ParseLine` | top_contributors_streamlit.py:156-161 | a line is skipped exactly when its stripped form has no tab |
| `Shortlog.CollectMalformed` | top_contributors_streamlit.py:159 | parsing fails exactly when some line has a tab but a count `int()` rejects |
| `Shortlog.CollectFromLines` | top_contributors_streamlit.py:155-161 | every record collected comes from a line that parses to it |
| `Shortlog.EmptyShortlog` | top_contributors_streamlit.py:155-156 | an all-whitespace shortlog gives no records and no failure |
| `Shortlog.CountRecords` | top_contributors_streamlit.py:152-162 | the parse loop fails iff the parse fails; otherwise it returns the mapping of the records and the running `total_commits`, the sum over all records |
| `Shortlog.ListRecords` | quick_contributors.py:42-49 | the list-building loop returns the collected records, repeats kept |
| `Shortlog.ShortlogTally` | top_contributors_streamlit.py:152-170 | the parsed mapping has distinct keys, one per author, last record wins, and its total equals `total_commits` when no author repeats |
| `Shortlog.PadCount` | top_contributors_streamlit.py:156-159 | a shortlog count field is spaces then the decimal count |
| `Shortlog.ShortlogRender` | top_contributors_streamlit.py:155-161 | parsing the `git shortlog -sn` text of any record list gives that list back (round trip) |
| `Shortlog.RepeatedAuthorTotal` | top_contributors_streamlit.py:161-162 | an author listed twice keeps only the last count in the mapping, while `total_commits` counts both |
| `Classifier.RuleMeaning` | top_contributors_streamlit.py:29-51 | each `re.match` pattern holds exactly when its plain reading holds: a literal prefix, a prefix then a later word, or a word before the first newline |
| `Classifier.AnyMatchSome` | top_contributors_streamlit.py:49-51 | the pattern loop returns True iff some pattern matches |
| `Classifier.OrderIrrelevant` | top_contributors_streamlit.py:49-51 | the verdict does not depend on the order of the patterns |
| `Classifier.PatternsArePlain` | top_contributors_streamlit.py:29-51 | the sixteen patterns match exactly when the plain rules on the lower-cased name hold |
| `Classifier.AutomatedIff` | top_contributors_streamlit.py:22-57 | `is_bot_or_automated` holds iff the plain rules hold or the stripped name is all digits |
| `Classifier.OnFirstLineContains` | top_contributors_streamlit.py:30-31 | for a one-line name, a `.*w.*` pattern is plain containment |
| `Classifier.NoDigits` | top_contributors_streamlit.py:54-55 | a name without digits never passes the numeric test |
| `Classifier.Humans` | top_contributors_streamlit.py:63-67 | the human mapping holds exactly the entries whose author is not a bot |
| `Classifier.HumansCount` | top_contributors_streamlit.py:63-67 | the human mapping has as many entries as the mapping has positions whose author is not a bot |
| `Classifier.TopHumanSpec` | top_contributors_streamlit.py:59-71 | `get_top_human_contributor` is `None` iff every author is automated; otherwise it is a human entry of the mapping with the largest count among humans |
| `Classifier.TopHumanFirst` | top_contributors_streamlit.py:70 | among humans tied for the maximum, `max` picks the first in mapping order |
| `Classifier.HumanLeaderboard` | top_contributors_streamlit.py:602 | the human top list holds exactly min(n, number of human entries) entries, each a human entry of the mapping, in non-increasing order |
| `Classifier.HumanLeaderboardCut` | top_contributors_streamlit.py:602 | a human entry of the mapping left off the top list counts no more than any entry on it, and a list shorter than n holds every human entry |
| `Classifier.TopHumanContributor` | top_contributors_streamlit.py:63-71 | the filter-then-max loop computes the top human |
| `ClassifierExamples.ExampleDependabot` | top_contributors_streamlit.py:30-32 | `dependabot[bot]` is automated |
| `ClassifierExamples.ExampleCindy` | top_contributors_streamlit.py:37 | `Cindy` is automated, because `ci.*` matches at the start |
| `ClassifierExamples.ExampleNumber` | top_contributors_streamlit.py:54-55 | the digits-only name `42` is automated |
| `ClassifierExamples.ExampleJane` | top_contributors_streamlit.py:22-57 | `Jane Doe` is human |
| `ClassifierExamples.ExampleRenovate` | top_contributors_streamlit.py:40 | `xrenovate` is human, because `re.match` anchors `renovate` at the start |
| `ClassifierExamples.ExampleChan` | top_contributors_streamlit.py:53-55 | `4Chan_user` is human: it has a digit but is not digits-only |
| `Ranking.ArgMax` | repo_contributor_analyzer.py:156 | `max(items, key=count)` gives an entry with the largest count, the first such in mapping order |
| `Ranking.TopEntry` | top_contributors_streamlit.py:576 | there is an overall top entry iff the mapping is non-empty |
| `Ranking.SortDescSpec` | top_contributors_streamlit.py:573-574 | `sorted(key=count, reverse=True)` gives a non-increasing permutation of the entries |
| `Ranking.SortDescStable` | top_contributors_streamlit.py:573-574 | the sort is stable: the entries with any one count keep their relative order |
| `Ranking.SortDescHead` | top_contributors_streamlit.py:576 | the first sorted entry is the first entry with the maximum count |
| `Ranking.Take` | top_contributors_streamlit.py:601 | slicing `[:n]` keeps the first min(n, len) elements |
| `Ranking.LeaderboardSpec` | top_contributors_streamlit.py:601 | the top-n list has min(n, len) entries of the mapping, non-increasing, led by the first maximum |
| `Ranking.LeaderboardStable` | batch_analyzer.py:69 | tied authors appear in the top-n list in first-encountered order |
| `Ranking.LeaderboardCut` | top_contributors_gui.py:330-334 | no entry left out of the top-n list has a higher count than an entry in it |
| `Ranking.LeaderboardCovers` | top_contributors_gui.py:330-334 | every entry is on the top-n list or after it in the sort, and a list shorter than n holds every entry |
| `Ranking.PercentBounds` | top_contributors_gui.py:335 | the percentage is 0 when the total is not positive, within 0..100 when the count lies within the total, and above 0 when that count is also positive |
| `Ranking.PercentSumAll` | top_contributors_gui.py:334-335 | for a positive total, the entries' percentages add up to their summed count as a percentage of the total |
| `RepoNames.KeptSpec` | top_contributors_streamlit.py:312-319 | the cleaned names are no more than the lines, each satisfies the cleaning guarantee, and the list is empty iff every line is dropped |
| `RepoNames.KeepLines` | top_contributors_streamlit.py:312-319 | the line loop keeps exactly the cleaned non-dropped lines, in order |
| `RepoNames.KeptAppend` | top_contributors_streamlit.py:312-319 | cleaning text in two parts gives the concatenation |
| `RepoNames.KeptThen` | github_analyzer_gui.py:156-165 | filtering blank lines then converting them equals the combined per-line conversion |
| `RepoNames.TrUrl` | top_contributors_streamlit.py:122 | the clone URL is the TR organisation prefix followed by the repository name |
| `RepoNames.RemoveTrPrefix` | top_contributors_streamlit.py:316 | a TR URL loses exactly its prefix |
| `RepoNames.RemoveNoPrefix` | top_contributors_streamlit.py:316 | a name without either prefix is left as it is |
| `RepoNames.CleanLineSpec` | top_contributors_streamlit.py:313-319 | a kept name is non-empty and has no slash at either end, and no newline |
| `RepoNames.RepoNamesSpec` | top_contributors_streamlit.py:310-319 | `repo_names` has at most one name per line, all clean, and is empty iff every line is blank, a comment or empty after cleaning |
| `RepoNames.CommentSkipped` | top_contributors_streamlit.py:314 | a line starting with `#` after stripping is skipped |
| `RepoNames.CleanLineOf` | top_contributors_streamlit.py:313-318 | a non-comment line becomes its stripped text with the prefixes removed and slashes stripped, dropped when empty |
| `RepoNames.CleanTrUrl` | top_contributors_streamlit.py:316-317 | a padded TR URL cleans to the bare repository name |
| `RepoNames.CleanBareName` | top_contributors_streamlit.py:313-318 | a padded bare name cleans to itself |
| `RepoNames.GetRepoNames` | top_contributors_gui.py:153-168 | the text-area loop returns the cleaned names |
| `RepoNames.CleanIsBulkThenSlashes` | tr_bulk_analyzer.py:137-153 | the Tk and Streamlit cleaning is the bulk cleaning followed by the `#` test and `strip('/')` |
| `RepoNames.BulkNamesSpec` | tr_bulk_analyzer.py:137-153 | the bulk tool's names are at most one per line, each non-empty and on one line |
| `RepoNames.GetBulkNames` | tr_bulk_analyzer.py:137-153 | the bulk tool's loop returns its cleaned names |
| `RepoNames.CheckedUrlSpec` | quick_contributors.py:82-93 | an input is refused iff it is empty, or does not start with `http` and has no slash; an accepted one is completed and starts with `http` |
| `RepoNames.ShorthandIdempotent` | batch_analyzer.py:51-54 | completing a shorthand twice changes nothing |
| `RepoNames.RepoNameOfUrl` | multi_repo_analyzer.py:22 | the repository name is the last path segment with `.git` removed |
| `RepoNames.UrlsFromUserSpec` | multi_repo_analyzer.py:137-166 | at most one URL per line entered, each a URL, and nothing after a blank line or `done` counts |
| `RepoNames.EndAt` | multi_repo_analyzer.py:148-152 | the position of the first line that ends the input, with no earlier such line; none iff no line ends it, where `input()` raises EOFError |
| `RepoNames.ReadUntil` | multi_repo_analyzer.py:148-164 | the prompt loop accepts entries until the end marker and reports the lines consumed; when the lines run out first it returns nothing, as `input()` raises EOFError |
| `RepoNames.GetUrlsFromUser` | multi_repo_analyzer.py:137-166 | the prompt loop returns the accepted URLs when an end marker is typed, and nothing (EOFError) when the lines run out first |
| `Outcomes.PartitionSizes` | top_contributors_streamlit.py:341-361 | every repository ends up either successful or failed |
| `Outcomes.PartitionNames` | top_contributors_streamlit.py:341-361 | the successful and failed names together are the requested names, as a multiset |
| `Outcomes.NoSuccesses` | top_contributors_streamlit.py:378 | there are no successes iff every repository failed |
| `Outcomes.AllFailed` | tr_bulk_analyzer.py:222-225 | with no successes, the failed list is the whole request in order |
| `Outcomes.Unrequested` | top_contributors_streamlit.py:341-361 | a name never requested is neither successful nor failed |
| `Outcomes.PrefixOutcomes` | top_contributors_gui.py:224-249 | stopping early gives prefixes of the full successful and failed lists |
| `Outcomes.OutcomesSnoc` | top_contributors_streamlit.py:357-361 | one repository appends to exactly one of the two lists |
| `Outcomes.RecordedKeys` | top_contributors_streamlit.py:325-359 | `analysis_results` holds its earlier keys plus every successful name; keys not requested keep their values |
| `Outcomes.RecordedLast` | top_contributors_streamlit.py:359 | a name listed twice keeps its last successful result |
| `Outcomes.RecordedSnoc` | top_contributors_streamlit.py:359 | each success overwrites the name's entry |
| `RepoAnalysis.RepoOutcomeSpec` | top_contributors_streamlit.py:119-173 | the analysis fails iff the clone or shortlog fails or a count is malformed; otherwise the result carries the name, the TR URL, the parsed mapping, its length and the sum of all records |
| `RepoAnalysis.ResultOfPositive` | top_contributors_streamlit.py:152-170 | positive shortlog counts give a result whose counts are positive and whose running total is at least its mapping's total |
| `RepoAnalysis.EmptyShortlogSucceeds` | top_contributors_streamlit.py:152-170 | an empty shortlog is a success with no contributors |
| `RepoAnalysis.GitFailureFails` | top_contributors_streamlit.py:135-136 | a failed clone or shortlog is a failure |
| `RepoAnalysis.AnalyzeSingleRepo` | top_contributors_streamlit.py:119-173 | the analysis method returns the specified outcome |
| `RepoAnalysis.RepoOutcomesNamed` | top_contributors_streamlit.py:164-165 | each successful result is named after its request |
| `RepoAnalysis.MappingOfSpec` | batch_analyzer.py:13-42 | the returned mapping has distinct keys, is `{}` iff the git run failed, a count was malformed or there are no records, and otherwise holds the last count per author |
| `RepoAnalysis.ShapesAgree` | batch_analyzer.py:13-42 | the `{}`-on-failure mapping is the contributors of the `None`-on-failure result |
| `RepoAnalysis.EmptyShortlogMapping` | batch_analyzer.py:30-38 | an empty shortlog gives the empty mapping |
| `RepoAnalysis.FetchMapping` | batch_analyzer.py:13-42 | the parse method returns the specified mapping |
| `RepoAnalysis.FetchRecords` | quick_contributors.py:21-69 | the record-list method returns the records or failure |
| `RepoAnalysis.RecordsAndMapping` | quick_contributors.py:42-49 | the record list and the mapping have the same authors, the mapping holding each author's last count |
| `Aggregate.MergeAllEmpty` | multi_repo_analyzer.py:102-104 | the merge is empty iff every mapping is empty |
| `Aggregate.MergeEmpty` | batch_analyzer.py:63-64 | merging an empty mapping changes nothing |
| `Aggregate.SummaryTop` | multi_repo_analyzer.py:81-90 | a summary holds the name, URL, contributor count, total and the first entry with the largest count |
| `Aggregate.CollectStep` | multi_repo_analyzer.py:71-90 | one repository merges its mapping and appends a summary exactly when the mapping is non-empty |
| `Aggregate.SummaryNamed` | multi_repo_analyzer.py:84-85 | each summary is named after its URL |
| `Aggregate.NoContributorsNoSummaries` | multi_repo_analyzer.py:102-104 | there are no contributors iff there are no summaries |
| `Aggregate.SummaryCommitsTotal` | multi_repo_analyzer.py:113-115 | the summaries' commits add up to the merged total |
| `Aggregate.SummaryWithinAggregate` | multi_repo_analyzer.py:87 | a repository's contributor count never exceeds the unique contributors overall |
| `Aggregate.ViewSpec` | multi_repo_analyzer.py:94-135 | the results are shown iff some repository had contributors; then the repository count, unique authors, total and at most ten merged entries, non-increasing, led by the top author |
| `SummaryLoop.MergeCounts` | multi_repo_analyzer.py:77-78 | the `+=` loop computes the merge |
| `SummaryLoop.CollectSummaries` | multi_repo_analyzer.py:61-92 | the repository loop returns the merged mapping and the summaries of the non-empty repositories |
| `SummaryLoop.ShowResults` | multi_repo_analyzer.py:94-135 | the display method returns the specified view |
| `Streamlit.Session.AnalyzeRepositories` | top_contributors_streamlit.py:322-375 | with no names nothing changes; otherwise the successful and failed lists are those of the batch and `analysis_results` is overwritten with every success |
| `Streamlit.BatchPartition` | top_contributors_streamlit.py:341-361 | successes and failures partition the request |
| `Streamlit.ResultsOverwritten` | top_contributors_streamlit.py:325-359 | the last success for a name is the one stored; names not requested keep their stored results |
| `Streamlit.AggregateContributors` | top_contributors_streamlit.py:411-417 | the aggregation loop computes the merge of all successful mappings |
| `Streamlit.AggregateSpec` | top_contributors_streamlit.py:388-391 | the aggregate has one key per unique contributor, each with its summed count |
| `Streamlit.TotalCommitsAggregate` | top_contributors_streamlit.py:387 | the summed per-repository totals equal the aggregate total when no author repeats within a shortlog |
| `Streamlit.TotalCommitsAtLeast` | top_contributors_streamlit.py:387 | the summed per-repository totals are at least the total of all mappings when each repository's total is at least its mapping's total |
| `Streamlit.AggregateBounds` | top_contributors_streamlit.py:387-417 | over results with positive counts, every aggregated count is positive and at most the summed totals |
| `Streamlit.ExportOfEmpty` | top_contributors_streamlit.py:419-431 | with no author at all the summary is written; with some author and summed totals of 0, the unguarded share of the overall top raises and nothing is written |
| `Streamlit.ExportReached` | top_contributors_streamlit.py:431-598 | over results with positive counts neither unguarded division raises, so the summary is written, and both exported shares lie above 0 and at most 100 |
| `Streamlit.ExportTop` | top_contributors_streamlit.py:573-591 | the overall top is absent iff no repository had contributors; otherwise it is the first author with the maximal summed count |
| `Streamlit.ExportTopHuman` | top_contributors_streamlit.py:579 | the exported top human is absent iff all authors are automated; otherwise it is a human with the largest count |
| `Streamlit.ExportHumanList` | top_contributors_streamlit.py:602 | the human list holds exactly min(10, number of human entries of the aggregate) human entries, non-increasing |
| `Streamlit.ExportHumanCut` | top_contributors_streamlit.py:602 | a human of the aggregate left off the human list counts no more than any human on it; a list shorter than ten holds every human |
| `Streamlit.ExportLists` | top_contributors_streamlit.py:589-601 | the top-20 list is non-increasing and led by the overall top; each share is 0 when the summed totals are not positive, and within 0..100 when that entry's count lies between 0 and the summed totals |
| `TkGui.StartedAt` | top_contributors_gui.py:225-226 | repository i starts iff the read before it does not see the flag |
| `TkGui.TkOutcomesUnstopped` | top_contributors_gui.py:285-286 | without a stop seen after a clone, each outcome is the plain analysis |
| `TkGui.Unstopped` | top_contributors_gui.py:210-249 | without a stop every repository runs and ends up successful or failed |
| `TkGui.StoppedBefore` | top_contributors_gui.py:225-226 | a stop seen before repository i leaves exactly the first i repositories analysed |
| `TkGui.StoppedAfterClone` | top_contributors_gui.py:285-286 | a stop seen after clone i fails repository i and ends the loop after it |
| `TkGui.NotStartedAbsent` | top_contributors_gui.py:224-249 | a repository not started is neither successful nor failed |
| `TkGui.App.StartAnalysis` | top_contributors_gui.py:170-202 | starts iff there are names and no analysis is running; then the stop flag is cleared and the save button disabled; otherwise nothing changes |
| `TkGui.App.StopAnalysis` | top_contributors_gui.py:204-208 | the flag is set iff an analysis is running |
| `TkGui.App.PollStop` | top_contributors_gui.py:225 | a read of the flag sees a stop requested by now |
| `TkGui.App.AnalyzeSingleRepo` | top_contributors_gui.py:269-317 | the Tk analysis returns the specified outcome, failing when the flag is seen after the clone |
| `TkGui.App.AnalyzeStarted` | top_contributors_gui.py:234-249 | a started repository is analysed, then the flag is read |
| `TkGui.App.RepoTurn` | top_contributors_gui.py:224-249 | one loop turn starts iff the flag is not seen before it |
| `TkGui.App.AnalyzeRepositories` | top_contributors_gui.py:210-267 | the stored lists are the successes and failures of the started repositories, and the flag ends as the run leaves it |
| `TkGui.App.AnalysisFinished` | top_contributors_gui.py:403-415 | the analysis ends, and saving is enabled iff there are successful results |
| `TkGui.App.RunStarted` | top_contributors_gui.py:403-410 | after the worker and `analysis_finished` on a run that started with save disabled, save is enabled iff this run stored a successful repository, and the stored successes are the outcomes of the repositories started |
| `TkGui.App.AnalysisRun` | top_contributors_gui.py:185-202 | a run started from the text box leaves the analysis finished with results stored, and save enabled iff that run had a successful repository, whatever an earlier run left; a refused start changes nothing |
| `TkReport.Rows` | top_contributors_gui.py:334-336 | one ranked row per entry with its percentage |
| `TkReport.RepoReportSpec` | top_contributors_gui.py:319-345 | the report shows min(10, n) rows ranked from 1, from the mapping, non-increasing, with an "and k more" line iff there are more than ten |
| `TkReport.RepoReportLeaderboard` | top_contributors_gui.py:326-334 | the rows are the top-10 leaderboard |
| `TkReport.ContributorTotalBound` | top_contributors_gui.py:356 | the summed contributor counts are at least the number of distinct authors |
| `TkReport.CountedTwice` | top_contributors_gui.py:356 | one author in two repositories is counted twice in "Total Contributors Found" |
| `TkReport.SavedSummarySpec` | top_contributors_gui.py:384-386 | processed equals successful plus failed, which equals the request |
| `TkReport.TkSuccessesWellFormed` | top_contributors_gui.py:296-314 | every stored result's contributor count is the size of its mapping |
| `TkReport.StoredSummary` | top_contributors_gui.py:381-392 | the saved summary counts the started repositories, all of them without a stop |
| `GithubGui.AppendNewSpec` | github_analyzer_gui.py:172-176 | adding keeps the old list as a prefix, adds no duplicate, and holds exactly the old and new URLs |
| `GithubGui.AppendNewAgain` | github_analyzer_gui.py:172-176 | adding the same text twice adds nothing the second time |
| `GithubGui.AddedCount` | github_analyzer_gui.py:172-178 | the number added is the number of new distinct URLs |
| `GithubGui.CandidatesShape` | github_analyzer_gui.py:165-171 | every candidate is a TR URL with a non-empty name |
| `GithubGui.BlankNoCandidates` | github_analyzer_gui.py:153-155 | blank input gives no candidates |
| `GithubGui.RemoveAtSpec` | github_analyzer_gui.py:187-194 | removing the selected index shifts the rest down and keeps the list duplicate-free |
| `GithubGui.GithubFetchSpec` | github_analyzer_gui.py:258-283 | the fetch returns the run's mapping, named after the URL when it is non-empty |
| `GithubGui.SummariesNamed` | github_analyzer_gui.py:231-250 | every summary carries its URL's repository name |
| `GithubGui.AppendLines` | github_analyzer_gui.py:165-176 | the line loop appends the new URLs and counts them |
| `GithubGui.BulkAdd` | github_analyzer_gui.py:150-180 | bulk add appends the new candidates of the text and counts them |
| `GithubGui.Window.AddBulkUrls` | github_analyzer_gui.py:150-180 | the URL list gains the new candidates, and the input is cleared iff something was added |
| `GithubGui.Window.RemoveUrl` | github_analyzer_gui.py:187-194 | the selected URL is removed; without a selection nothing changes |
| `GithubGui.Window.ClearUrls` | github_analyzer_gui.py:196-201 | the list is emptied iff it was non-empty and the user confirmed |
| `GithubGui.Window.StartAnalysis` | github_analyzer_gui.py:203-221 | starts iff there are URLs and no analysis is running |
| `GithubGui.Window.AnalyzeRepositories` | github_analyzer_gui.py:223-256 | the loop returns the merged mapping and the summaries of the non-empty repositories |
| `GithubGui.Window.DisplayResults` | github_analyzer_gui.py:285-335 | the analysis ends and the view is the specified one |
| `TrBulk.BulkOutcomeSpec` | tr_bulk_analyzer.py:168-175 | a repository succeeds iff its mapping is non-empty; its row is the name, the author count and the mapping's total |
| `TrBulk.EmptyShortlogFails` | tr_bulk_analyzer.py:170-175 | an empty shortlog is a failure here, though a success in the Streamlit and Tk tools |
| `TrBulk.BulkStep` | tr_bulk_analyzer.py:164-175 | one repository merges its mapping and extends exactly one list |
| `TrBulk.BulkPartition` | tr_bulk_analyzer.py:164-175 | successes and failures partition the names |
| `TrBulk.FailedAddNothing` | tr_bulk_analyzer.py:174-175 | a failed repository contributes nothing to the merge |
| `TrBulk.SuccessCommitsTotal` | tr_bulk_analyzer.py:241 | the success rows' commits add up to the merged total |
| `TrBulk.NoContributorsAllFailed` | tr_bulk_analyzer.py:222-226 | there are no contributors iff nothing succeeded |
| `TrBulk.DisplaySpec` | tr_bulk_analyzer.py:212-264 | the "no contributors" view lists every name as failed; otherwise the counts partition the request, and the view shows unique authors, the total and a non-increasing top ten of merged entries |
| `TrBulk.Analyzer.StartAnalysis` | tr_bulk_analyzer.py:115-135 | starts iff there are names and no analysis is running |
| `TrBulk.Analyzer.AnalyzeRepositories` | tr_bulk_analyzer.py:155-181 | the loop returns the merge, the success rows and the failed names |
| `TrBulk.Analyzer.DisplayResults` | tr_bulk_analyzer.py:212-264 | the analysis ends and the view is the specified one |
| `RepoContributor.DetailOutcomeSpec` | repo_contributor_analyzer.py:147-157 | a repository is kept iff its mapping is non-empty; then its detail holds the info, the mapping and the first entry with the largest count |
| `RepoContributor.DetailStep` | repo_contributor_analyzer.py:140-161 | one repository merges its mapping and is appended when kept |
| `RepoContributor.KeptMerge` | repo_contributor_analyzer.py:149-157 | merging every mapping equals merging only the kept repositories' mappings |
| `RepoContributor.KeptKeys` | repo_contributor_analyzer.py:137-163 | the result mapping has one key per author of a kept repository, with summed counts |
| `RepoContributor.NoContributorsNoDetails` | repo_contributor_analyzer.py:169-171 | there are no contributors iff no repository is kept |
| `RepoContributor.AnalyzeRepositories` | repo_contributor_analyzer.py:133-163 | the loop returns the merge and the kept details |
| `RepoContributor.PrintResults` | repo_contributor_analyzer.py:165-200 | the printout and the re-ordered detail list are the specified ones |
| `RepoContributor.PrintResultsSpec` | repo_contributor_analyzer.py:165-200 | nothing is printed iff there are no contributors; otherwise the top 20, non-increasing, led by the first maximum; the details are re-ordered by total commits stably and as a permutation |
| `RepoContributor.Analyze` | repo_contributor_analyzer.py:219-252 | no repositories gives the "none found" message; otherwise the printout, the JSON when requested (after the re-ordering) and the kept count |
| `RepoContributor.JsonSpec` | repo_contributor_analyzer.py:202-212 | the JSON counts the kept repositories and unique authors, and lists all merged authors non-increasingly and the details by total commits |
| `MultiRepo.SummariesNamed` | multi_repo_analyzer.py:22 | every summary carries its URL's repository name |
| `MultiRepo.Analyze` | multi_repo_analyzer.py:168-185 | the run ends with EOFError iff the lines run out in the URL loop or, once a URL was accepted, at the "Press Enter" read; with no URLs nothing is analysed; otherwise the view of the merged mapping and summaries |
| `MultiRepo.EndInUrlLoop` | multi_repo_analyzer.py:149 | typing `a/b` and nothing more ends input inside the URL loop |
| `MultiRepo.EndAtStartPrompt` | multi_repo_analyzer.py:177 | typing `a/b` and a blank line ends input at the "Press Enter" read |
| `MultiRepo.StartAfterPrompt` | multi_repo_analyzer.py:168-180 | one more line after the blank line reaches the analysis |
| `MultiRepo.AnalyzeSpec` | multi_repo_analyzer.py:137-185 | every analysed input is a URL, and "no contributors" is shown iff no summary exists |
| `Quick.GetTopContributors` | quick_contributors.py:13-69 | failure iff the git run or parse fails; otherwise the first `top_n` records, their count and their sum |
| `Quick.ReportSpec` | quick_contributors.py:42-63 | the report is a prefix of the shortlog order, counts every record, and agrees with the author mapping when no author repeats |
| `Quick.KeySetBound` | quick_contributors.py:60 | there are no more distinct authors than records |
| `Quick.Run` | quick_contributors.py:71-95 | EOFError iff there is no argument and no typed line; otherwise no URL, an invalid URL, a failure or the report, according to the input and the run |
| `Batch.CompleteArgs` | batch_analyzer.py:50-54 | one URL per argument, each completed |
| `Batch.ShorthandSpec` | batch_analyzer.py:52-53 | an argument is kept or prefixed with the GitHub URL, starts with `http` unless it had no slash, and completing is idempotent |
| `Batch.MergeRuns` | batch_analyzer.py:59-64 | the loop computes the Counter merge of all mappings |
| `Batch.Run` | batch_analyzer.py:44-72 | the usage text iff there are no arguments; otherwise the URLs, the top ten and the two totals |
| `Batch.BatchSpec` | batch_analyzer.py:66-72 | the totals are the unique authors and summed commits; the top ten are merged entries, non-increasing, led by the top author, with ties in first-encountered order |
| `Batch.FailedAddsNothing` | batch_analyzer.py:40-42 | a failed repository's `{}` changes nothing in the merge |

## Left out

- The `git` subprocesses, temporary directories, `os.chdir` and timeouts are not modelled.
  Each repository's git run is an input of type `GitRun`, and its `--since` range is part
  of that input.
- Repositories are not independent in the source, but the model treats them as if they
  were. A failure after `os.chdir` skips the `os.chdir` back. This happens at
  multi_repo_analyzer.py:32-50 and repo_contributor_analyzer.py:21-38 and 53-78. The
  working directory then stays changed. In `multi_repo_analyzer.py` it stays inside the
  deleted clone, so every later repository yields `{}`. The per-repository `GitRun`
  inputs can express those later failures, but the model does not derive them.
- Threads, `root.after` scheduling, progress bars, message boxes, charts, styling and the
  Streamlit widgets are not modelled. The Tk worker thread's interleaving with the UI
  thread is reduced to the first flag read that sees the stop.
- Printing is not modelled. Output is a value: a view, a report, a printout or the JSON
  fields. Text formatting, column widths and emoji are not modelled.
- Float formatting is not modelled. Percentages are exact reals; `round(..., 1)` and `:5.1f`
  are not applied.
- `datetime.now()` timestamps, the JSON file names and writing the files are not modelled.
- `get_repo_info` and `find_git_repos` in `repo_contributor_analyzer.py` (directory
  scanning, `rev-list --count`, branch and remote) are not modelled. Their results are the
  input `RepoInfo` list.
- `test_tools.py` is not part of this model.
- `str.lower`, `str.isspace` and the regex `\d` are modelled for ASCII letters and digits
  and the Python whitespace set. Unicode case folding and non-ASCII digits are not.
- The "load example repositories" handlers, the Tk save dialog and the Streamlit chart
  helpers are not modelled. They only fill widgets.
- The description of the tools says ties in the ranking are broken alphabetically. The code
  sorts stably on the count alone, so ties keep first-encountered order. The model follows
  the code (`Ranking.SortDescStable`).
- Empty shortlogs are handled differently by different scripts, and the model follows each
  one:
  - the Streamlit and Tk tools record a success with no contributors;
  - `tr_bulk_analyzer.py` records a failure;
  - the other scripts skip the repository;
  - `TrBulk.EmptyShortlogFails` states the difference.
- Quick.Run: `main` always passes the default `top_n`, 5, so the model fixes it.
  `GetTopContributors` takes any `top_n`.
- Streamlit.Export: the summary alone does not say whether the download button is reached.
  `Streamlit.ExportOf` gives it only when the unguarded divisions at lines 431 and 548 do not
  raise (`Streamlit.DisplayRaises`). The shares are bounded to 0..100 only for results with
  positive counts (`Streamlit.ExportReached`), as git prints them. `int()` also accepts
  negative counts: records `alice 5` and `bob -3` give summed totals of 2, and alice's share
  is then 250.
- Streamlit.TotalCommitsAggregate: equality with the aggregate total is stated only when
  every per-repository total is the sum of its mapping. This holds when no author repeats
  within a shortlog. A repeated author is counted twice in `total_commits` and once in the
  mapping (`Shortlog.RepeatedAuthorTotal`).
