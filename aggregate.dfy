/** Combining per-repository mappings into one Counter, and the per-repository summary
    records of the URL-list analyzers. */
module Aggregate {
  import opened Optional
  import opened Counts
  import opened Ranking
  import opened Shortlog
  import opened Outcomes

  /** The aggregate is empty exactly when every per-repository mapping is. */
  lemma MergeAllEmpty(ts: seq<Tally>)
    ensures MergeAll(ts) == [] <==> forall i :: 0 <= i < |ts| ==> ts[i] == []
  {
    MergeAllSpec(ts);
    UnionKeysEmpty(ts);
  }

  lemma {:induction false} UnionKeysEmpty(ts: seq<Tally>)
    ensures UnionKeys(ts) == {} <==> forall i :: 0 <= i < |ts| ==> ts[i] == []
  {
    if ts != [] {
      var n := |ts| - 1;
      UnionKeysEmpty(ts[..n]);
      if ts[n] != [] {
        assert ts[n][0].0 in KeySet(ts[n]);
      }
      if forall i :: 0 <= i < n ==> ts[..n][i] == [] {
        assert forall i :: 0 <= i < n ==> ts[i] == ts[..n][i];
      }
    }
  }

  /** Merging an empty mapping changes nothing, so skipping empty mappings (the
      `if contributors:` guards) gives the same aggregate as merging them. */
  lemma MergeEmpty(acc: Tally)
    ensures Merge(acc, []) == acc
  {
  }

  // ---------------------------------------------------------------------------
  // Per-repository summaries

  /** The summary dict: name, URL, `len(contributors)`, `sum(contributors.values())`
      and `max(contributors.items(), key=count)`. */
  datatype RepoSummary = RepoSummary(name: string, url: string, contributors: nat,
                                     totalCommits: int, top: Entry)

  function SummaryOf(name: string, url: string, c: Tally): RepoSummary
    requires c != []
  {
    RepoSummary(name, url, |c|, Sum(c), c[ArgMax(c)])
  }

  /** A summary's top contributor is one of the repository's pairs with the largest
      count, the first such pair in the mapping's order. */
  lemma SummaryTop(name: string, url: string, c: Tally)
    requires c != []
    ensures var s := SummaryOf(name, url, c);
      s.contributors == |c| && s.totalCommits == Sum(c) && s.name == name && s.url == url &&
      exists k :: 0 <= k < |c| && c[k] == s.top
        && (forall j :: 0 <= j < |c| ==> c[j].1 <= s.top.1)
        && (forall j :: 0 <= j < k ==> c[j].1 < s.top.1)
  {
    var k := ArgMax(c);
    assert c[k] == SummaryOf(name, url, c).top;
  }

  /** What the loop keeps of one repository: a summary when its mapping is non-empty. */
  function SummaryOutcome(url: string, fetched: (Tally, string)): Option<RepoSummary> {
    if fetched.0 != [] then Some(SummaryOf(fetched.1, url, fetched.0)) else None
  }

  /** `analyze_single_repo(url)` applied to every URL, with its git runs. */
  function Fetched(urls: seq<string>, runs: seq<GitRun>, fetch: (string, GitRun) -> (Tally, string))
    : (fs: seq<(Tally, string)>)
    requires |urls| == |runs|
    ensures |fs| == |urls|
  {
    if urls == [] then []
    else
      var n := |urls| - 1;
      Fetched(urls[..n], runs[..n], fetch) + [fetch(urls[n], runs[n])]
  }

  function Mappings(fs: seq<(Tally, string)>): (ts: seq<Tally>)
    ensures |ts| == |fs|
  {
    if fs == [] then [] else Mappings(fs[..|fs| - 1]) + [fs[|fs| - 1].0]
  }

  function SummaryOutcomes(urls: seq<string>, fs: seq<(Tally, string)>): (os: seq<Option<RepoSummary>>)
    requires |urls| == |fs|
    ensures |os| == |fs|
  {
    if fs == [] then []
    else
      var n := |fs| - 1;
      SummaryOutcomes(urls[..n], fs[..n]) + [SummaryOutcome(urls[n], fs[n])]
  }

  lemma {:induction false} FetchedAt(urls: seq<string>, runs: seq<GitRun>, fetch: (string, GitRun) -> (Tally, string), i: nat)
    requires |urls| == |runs| && i < |urls|
    ensures Fetched(urls, runs, fetch)[i] == fetch(urls[i], runs[i])
    ensures Fetched(urls, runs, fetch)[..i] == Fetched(urls[..i], runs[..i], fetch)
    ensures Fetched(urls, runs, fetch)[..i + 1] == Fetched(urls[..i], runs[..i], fetch) + [fetch(urls[i], runs[i])]
    decreases |urls|
  {
    var n := |urls| - 1;
    if i < n {
      FetchedAt(urls[..n], runs[..n], fetch, i);
      assert urls[..n][..i] == urls[..i];
      assert runs[..n][..i] == runs[..i];
    } else {
      assert urls[..n] == urls[..i];
      assert runs[..n] == runs[..i];
    }
  }

  lemma {:induction false} MappingsAt(fs: seq<(Tally, string)>, i: nat)
    requires i < |fs|
    ensures Mappings(fs)[i] == fs[i].0
    ensures Mappings(fs[..i + 1]) == Mappings(fs[..i]) + [fs[i].0]
  {
    var n := |fs| - 1;
    assert fs[..i + 1][..i] == fs[..i];
    if i < n {
      MappingsAt(fs[..n], i);
      assert fs[..n][..i + 1] == fs[..i + 1];
    }
  }

  lemma SummaryOutcomesSnoc(urls: seq<string>, fs: seq<(Tally, string)>, i: nat)
    requires |urls| == |fs| && i < |fs|
    ensures SummaryOutcomes(urls[..i + 1], fs[..i + 1])
         == SummaryOutcomes(urls[..i], fs[..i]) + [SummaryOutcome(urls[i], fs[i])]
  {
    assert fs[..i + 1][..i] == fs[..i];
    assert urls[..i + 1][..i] == urls[..i];
  }

  lemma MergeAllSnoc(ts: seq<Tally>, t: Tally)
    ensures MergeAll(ts + [t]) == Merge(MergeAll(ts), t)
  {
    assert (ts + [t])[..|ts|] == ts;
  }

  /** One round of the URL-list loop: the aggregate gains the repository's mapping,
      and the summaries gain its summary when that mapping is non-empty. */
  lemma CollectStep(urls: seq<string>, runs: seq<GitRun>, fetch: (string, GitRun) -> (Tally, string), i: nat)
    requires |urls| == |runs| && i < |urls|
    ensures var fs := Fetched(urls, runs, fetch);
      var f := fetch(urls[i], runs[i]);
      MergeAll(Mappings(fs[..i + 1])) == Merge(MergeAll(Mappings(fs[..i])), f.0)
      && Successes(SummaryOutcomes(urls[..i + 1], fs[..i + 1]))
         == Successes(SummaryOutcomes(urls[..i], fs[..i])) + (if f.0 != [] then [SummaryOf(f.1, urls[i], f.0)] else [])
  {
    var fs := Fetched(urls, runs, fetch);
    FetchedAt(urls, runs, fetch, i);
    MappingsAt(fs, i);
    SummaryOutcomesSnoc(urls, fs, i);
    MergeAllSnoc(Mappings(fs[..i]), fs[i].0);
    var os := SummaryOutcomes(urls[..i], fs[..i]);
    var o := SummaryOutcome(urls[i], fs[i]);
    assert (os + [o])[..|os|] == os;
  }

  /** Every summary is named as `nameOf` derives from its URL. */
  predicate NamedBy(ss: seq<RepoSummary>, nameOf: string -> string) {
    forall k :: 0 <= k < |ss| ==> ss[k].name == nameOf(ss[k].url)
  }

  /** When every non-empty mapping comes with the name `nameOf` derives from its URL,
      every summary carries that name. */
  lemma {:induction false} SummaryNamed(urls: seq<string>, fs: seq<(Tally, string)>, nameOf: string -> string)
    requires |urls| == |fs|
    requires forall i :: 0 <= i < |fs| && fs[i].0 != [] ==> fs[i].1 == nameOf(urls[i])
    ensures NamedBy(Successes(SummaryOutcomes(urls, fs)), nameOf)
  {
    if fs != [] {
      var n := |fs| - 1;
      assert forall i :: 0 <= i < n && fs[..n][i].0 != [] ==> fs[..n][i].1 == nameOf(urls[..n][i]) by {
        forall i | 0 <= i < n && fs[..n][i].0 != [] ensures fs[..n][i].1 == nameOf(urls[..n][i]) {
          assert fs[..n][i] == fs[i] && urls[..n][i] == urls[i];
        }
      }
      SummaryNamed(urls[..n], fs[..n], nameOf);
      var prior := SummaryOutcomes(urls[..n], fs[..n]);
      var o := SummaryOutcome(urls[n], fs[n]);
      assert SummaryOutcomes(urls, fs) == prior + [o];
      assert (prior + [o])[..n] == prior;
      var s := Successes(prior);
      var ss := Successes(SummaryOutcomes(urls, fs));
      if o.Some? {
        assert ss == s + [o.value];
        assert o.value.name == fs[n].1 && o.value.url == urls[n];
        forall k | 0 <= k < |ss| ensures ss[k].name == nameOf(ss[k].url) {
          if k < |s| { assert ss[k] == s[k]; } else { assert ss[k] == o.value; }
        }
      } else {
        assert ss == s;
      }
    }
  }

  /** There is no contributor at all exactly when no repository was summarised. */
  lemma {:induction false} NoContributorsNoSummaries(urls: seq<string>, fs: seq<(Tally, string)>)
    requires |urls| == |fs|
    ensures MergeAll(Mappings(fs)) == [] <==> Successes(SummaryOutcomes(urls, fs)) == []
  {
    MergeAllEmpty(Mappings(fs));
    SummariesEmpty(urls, fs);
    forall i | 0 <= i < |fs| ensures Mappings(fs)[i] == fs[i].0 { MappingsAt(fs, i); }
  }

  lemma {:induction false} SummariesEmpty(urls: seq<string>, fs: seq<(Tally, string)>)
    requires |urls| == |fs|
    ensures Successes(SummaryOutcomes(urls, fs)) == [] <==> forall i :: 0 <= i < |fs| ==> fs[i].0 == []
  {
    if fs != [] {
      var n := |fs| - 1;
      SummariesEmpty(urls[..n], fs[..n]);
      assert SummaryOutcomes(urls, fs) == SummaryOutcomes(urls[..n], fs[..n]) + [SummaryOutcome(urls[n], fs[n])];
      assert SummaryOutcomes(urls, fs)[..n] == SummaryOutcomes(urls[..n], fs[..n]);
      if forall i :: 0 <= i < n ==> fs[..n][i].0 == [] {
        assert forall i :: 0 <= i < n ==> fs[i] == fs[..n][i];
      }
    }
  }

  /** The sum of the summaries' commit totals, `sum(r['total_commits'] for r in ...)`. */
  function SummaryCommits(ss: seq<RepoSummary>): int {
    if ss == [] then 0 else SummaryCommits(ss[..|ss| - 1]) + ss[|ss| - 1].totalCommits
  }

  /** The total commits of the aggregate equal the summaries' totals added up: the
      skipped repositories contribute nothing to either. */
  lemma {:induction false} SummaryCommitsTotal(urls: seq<string>, fs: seq<(Tally, string)>)
    requires |urls| == |fs|
    ensures SummaryCommits(Successes(SummaryOutcomes(urls, fs))) == Sum(MergeAll(Mappings(fs)))
  {
    MergeAllSpec(Mappings(fs));
    SummaryCommitsOver(urls, fs);
  }

  lemma {:induction false} SummaryCommitsOver(urls: seq<string>, fs: seq<(Tally, string)>)
    requires |urls| == |fs|
    ensures SummaryCommits(Successes(SummaryOutcomes(urls, fs))) == TotalOver(Mappings(fs))
  {
    if fs != [] {
      var n := |fs| - 1;
      SummaryCommitsOver(urls[..n], fs[..n]);
      var os := SummaryOutcomes(urls, fs);
      var s := Successes(SummaryOutcomes(urls[..n], fs[..n]));
      assert os == SummaryOutcomes(urls[..n], fs[..n]) + [SummaryOutcome(urls[n], fs[n])];
      assert os[..n] == SummaryOutcomes(urls[..n], fs[..n]);
      assert Mappings(fs)[..n] == Mappings(fs[..n]);
      assert TotalOver(Mappings(fs)) == TotalOver(Mappings(fs[..n])) + Sum(fs[n].0);
      if fs[n].0 != [] {
        var v := SummaryOf(fs[n].1, urls[n], fs[n].0);
        assert Successes(os) == s + [v];
        assert (s + [v])[..|s|] == s;
        assert SummaryCommits(s + [v]) == SummaryCommits(s) + Sum(fs[n].0);
      } else {
        assert Successes(os) == s;
      }
    }
  }

  /** Each summary describes a repository that contributed authors: its author count
      is at most the number of unique contributors overall. */
  lemma {:induction false} SummaryWithinAggregate(urls: seq<string>, fs: seq<(Tally, string)>, k: nat)
    requires |urls| == |fs| && k < |fs| && fs[k].0 != []
    requires UniqueKeys(fs[k].0)
    ensures SummaryOutcome(urls[k], fs[k]).value.contributors <= |MergeAll(Mappings(fs))|
  {
    var ts := Mappings(fs);
    MergeAllSpec(ts);
    MappingsAt(fs, k);
    UnionKeysMember(ts, k);
    UniqueKeysSize(fs[k].0);
    SubsetSize(KeySet(ts[k]), KeySet(MergeAll(ts)));
  }

  lemma {:induction false} SubsetSize(a: set<string>, b: set<string>)
    requires a <= b
    ensures |a| <= |b|
    decreases |a|
  {
    if a != {} {
      var x :| x in a;
      SubsetSize(a - {x}, b - {x});
    }
  }

  lemma {:induction false} UnionKeysMember(ts: seq<Tally>, k: nat)
    requires k < |ts|
    ensures KeySet(ts[k]) <= UnionKeys(ts)
  {
    var n := |ts| - 1;
    if k < n {
      UnionKeysMember(ts[..n], k);
    }
  }

  // ---------------------------------------------------------------------------
  // The results view of the URL-list analyzers

  datatype SummaryView =
    | NoContributors
    | Results(top: Tally, repos: nat, unique: nat, commits: int, breakdown: seq<RepoSummary>)

  /** `display_results`: nothing but a notice when no contributor was found; otherwise
      the first 10 of the descending sort, the number of summarised repositories, of
      distinct authors, the commit total and the per-repository summaries. */
  function ViewOf(all: Tally, summaries: seq<RepoSummary>): SummaryView {
    if all == [] then NoContributors
    else Results(Leaderboard(all, 10), |summaries|, |all|, Sum(all), summaries)
  }

  /** For the results of a run: no contributors exactly when no repository was
      summarised; the unique count is the number of distinct authors over all
      repositories, the commit total the sum of the summaries' totals, and the top list
      at most 10 entries of the aggregate in non-increasing order. */
  lemma ViewSpec(urls: seq<string>, runs: seq<GitRun>, fetch: (string, GitRun) -> (Tally, string))
    requires |urls| == |runs|
    ensures var fs := Fetched(urls, runs, fetch);
      var all := MergeAll(Mappings(fs));
      var ss := Successes(SummaryOutcomes(urls, fs));
      var v := ViewOf(all, ss);
      && (v.NoContributors? <==> ss == [])
      && (v.Results? ==>
            && v.repos == |ss|
            && v.unique == |UnionKeys(Mappings(fs))|
            && v.commits == SummaryCommits(ss)
            && |v.top| <= 10 && Descending(v.top, Count)
            && (forall i :: 0 <= i < |v.top| ==> v.top[i] in all)
            && v.top[0] == all[ArgMax(all)])
  {
    var fs := Fetched(urls, runs, fetch);
    var all := MergeAll(Mappings(fs));
    NoContributorsNoSummaries(urls, fs);
    MergeAllSpec(Mappings(fs));
    SummaryCommitsTotal(urls, fs);
    LeaderboardSpec(all, 10);
  }
}
