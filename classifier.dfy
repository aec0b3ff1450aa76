/** The bot/human classifier of the Streamlit version (`is_bot_or_automated`) and the
    choice of the top human contributor (`get_top_human_contributor`). The patterns are
    tried with `re.match`, which anchors at the start of the name but not at its end,
    and whose `.` matches any character except a newline. */
module Classifier {
  import opened Optional
  import opened PyStr
  import opened Counts
  import opened Ranking

  /** A token of the regular expressions the classifier uses: a literal character
      (`\[` and `\]` are literal brackets) or `.*`. */
  datatype Tok = Char(c: char) | DotStar

  /** The literal pattern for a word. */
  function Lits(w: string): (p: seq<Tok>)
    ensures |p| == |w|
  {
    if w == [] then [] else [Char(w[0])] + Lits(w[1..])
  }

  /** `re.match(p, s) is not None`: `p` matches some prefix of `s`. */
  predicate ReMatch(p: seq<Tok>, s: string)
    decreases |p|, |s|
  {
    if p == [] then true
    else match p[0]
      case Char(c) => s != [] && s[0] == c && ReMatch(p[1..], s[1..])
      case DotStar => ReMatch(p[1..], s) || (s != [] && s[0] != '\n' && ReMatch(p, s[1..]))
  }

  /** The four shapes the patterns of the list take. */
  datatype Rule =
    | Literal(w: string)                 // 'w'
    | Starts(w: string)                  // 'w.*'
    | Search(w: string)                  // '.*w.*'
    | StartsThen(w: string, v: string)   // 'w.*v'

  /** A rule written out as the regular expression of the source. */
  function Tokens(r: Rule): seq<Tok> {
    match r
    case Literal(w) => Lits(w)
    case Starts(w) => Lits(w) + [DotStar]
    case Search(w) => [DotStar] + Lits(w) + [DotStar]
    case StartsThen(w, v) => Lits(w) + [DotStar] + Lits(v)
  }

  /** `w` occurs in `s` before its first newline. */
  predicate OnFirstLine(s: string, w: string)
    decreases |s|
  {
    StartsWith(s, w) || (s != [] && s[0] != '\n' && OnFirstLine(s[1..], w))
  }

  /** What a rule asks of the lower-cased name, in plain words. */
  predicate Meaning(r: Rule, s: string) {
    match r
    case Literal(w) => StartsWith(s, w)
    case Starts(w) => StartsWith(s, w)
    case Search(w) => OnFirstLine(s, w)
    case StartsThen(w, v) => StartsWith(s, w) && OnFirstLine(s[|w|..], v)
  }

  /** The sixteen patterns, in the order of the source list. */
  const BotPatterns: seq<Rule> := [
    Search("[bot]"), Search("bot"), Literal("dependabot"), Literal("github-actions"),
    StartsThen("workflow", "automation"), StartsThen("dynamic", "readme"),
    Starts("auto"), Starts("ci"), Starts("deploy"), Search("automation"),
    Literal("renovate"), Literal("greenkeeper"), Literal("codecov"), Literal("snyk"),
    Literal("whitesource"), Search("deploy")
  ]

  /** The loop `for pattern in bot_patterns: if re.match(pattern, s): return True`. */
  predicate AnyMatch(ps: seq<Rule>, s: string) {
    ps != [] && (ReMatch(Tokens(ps[0]), s) || AnyMatch(ps[1..], s))
  }

  /** `re.match(r'^\d+$', t)` for a stripped `t`: one or more digits and nothing else
      (a stripped string has no final newline for `$` to stop in front of). */
  predicate DigitsOnly(t: string) {
    t != [] && forall i :: 0 <= i < |t| ==> IsDigit(t[i])
  }

  /** `is_bot_or_automated(author_name)` */
  predicate IsAutomated(name: string) {
    AnyMatch(BotPatterns, Lower(name)) || DigitsOnly(Strip(name))
  }

  // ----- what each shape of pattern means -----

  lemma {:induction false} LitsMatch(w: string, rest: seq<Tok>, s: string)
    ensures ReMatch(Lits(w) + rest, s) == (StartsWith(s, w) && ReMatch(rest, s[|w|..]))
    decreases |w|
  {
    if w == [] {
      assert Lits(w) + rest == rest;
    } else {
      var p := Lits(w) + rest;
      assert p[0] == Char(w[0]) && p[1..] == Lits(w[1..]) + rest;
      StartsWithCons(s, w);
      if s != [] && s[0] == w[0] {
        LitsMatch(w[1..], rest, s[1..]);
        if |w| <= |s| { assert s[1..][|w| - 1..] == s[|w|..]; }
      }
    }
  }

  lemma TrailingDotStar(s: string)
    ensures ReMatch([DotStar], s)
  {
    assert [DotStar][1..] == [];
  }

  /** `.*w.*` means that `w` occurs before the first newline. */
  lemma {:induction false} SearchMatch(w: string, s: string)
    ensures ReMatch(Tokens(Search(w)), s) == OnFirstLine(s, w)
    decreases |s|
  {
    var p := Tokens(Search(w));
    assert p[0] == DotStar && p[1..] == Lits(w) + [DotStar];
    LitsMatch(w, [DotStar], s);
    if |w| <= |s| { TrailingDotStar(s[|w|..]); }
    if s != [] && s[0] != '\n' {
      SearchMatch(w, s[1..]);
    }
  }

  /** `.*v` means the same. */
  lemma {:induction false} SearchTailMatch(v: string, s: string)
    ensures ReMatch([DotStar] + Lits(v), s) == OnFirstLine(s, v)
    decreases |s|
  {
    var p := [DotStar] + Lits(v);
    assert p[0] == DotStar && p[1..] == Lits(v) + [];
    LitsMatch(v, [], s);
    if s != [] && s[0] != '\n' {
      SearchTailMatch(v, s[1..]);
    }
  }

  /** Each shape of pattern means what `Meaning` says. */
  lemma RuleMeaning(r: Rule, s: string)
    ensures ReMatch(Tokens(r), s) == Meaning(r, s)
  {
    match r
    case Literal(w) =>
      assert Lits(w) + [] == Lits(w);
      LitsMatch(w, [], s);
    case Starts(w) =>
      LitsMatch(w, [DotStar], s);
      if |w| <= |s| { TrailingDotStar(s[|w|..]); }
    case Search(w) =>
      SearchMatch(w, s);
    case StartsThen(w, v) =>
      assert Tokens(r) == Lits(w) + ([DotStar] + Lits(v));
      LitsMatch(w, [DotStar] + Lits(v), s);
      if |w| <= |s| { SearchTailMatch(v, s[|w|..]); }
  }

  /** On a name without a newline, "before the first newline" is plain `w in s`. */
  lemma {:induction false} OnFirstLineContains(s: string, w: string)
    requires '\n' !in s
    ensures OnFirstLine(s, w) == Contains(s, w)
    decreases |s|
  {
    if s != [] {
      assert '\n' !in s[1..] by { assert forall i :: 0 <= i < |s| - 1 ==> s[1..][i] == s[i + 1]; }
      OnFirstLineContains(s[1..], w);
    }
  }

  /** An occurrence that starts `k` characters into the first line is on it. */
  lemma {:induction false} OnFirstLineAt(s: string, w: string, k: nat)
    requires k <= |s| && (forall i :: 0 <= i < k ==> s[i] != '\n') && StartsWith(s[k..], w)
    ensures OnFirstLine(s, w)
    decreases k
  {
    if k > 0 {
      assert s[1..][k - 1..] == s[k..];
      OnFirstLineAt(s[1..], w, k - 1);
    }
  }

  /** The same for an occurrence on the first line of `s[k..]`. */
  lemma {:induction false} OnFirstLineAfter(s: string, k: nat, w: string)
    requires k <= |s| && (forall i :: 0 <= i < k ==> s[i] != '\n') && OnFirstLine(s[k..], w)
    ensures OnFirstLine(s, w)
    decreases k
  {
    if k > 0 {
      assert s[1..][k - 1..] == s[k..];
      OnFirstLineAfter(s[1..], k - 1, w);
    }
  }

  /** An occurrence of `u + w + v` holds one of `w`. */
  lemma {:induction false} OnFirstLineInfix(s: string, u: string, w: string, v: string)
    requires '\n' !in u && OnFirstLine(s, u + w + v)
    ensures OnFirstLine(s, w)
    decreases |s|
  {
    if StartsWith(s, u + w + v) {
      assert s[|u|..][..|w|] == (u + w + v)[|u|..|u| + |w|] == w;
      OnFirstLineAt(s, w, |u|);
    } else {
      OnFirstLineInfix(s[1..], u, w, v);
    }
  }

  /** The early-returning loop finds a match exactly when some pattern matches. */
  lemma {:induction false} AnyMatchSome(ps: seq<Rule>, s: string)
    ensures AnyMatch(ps, s) <==> exists i :: 0 <= i < |ps| && ReMatch(Tokens(ps[i]), s)
  {
    if ps != [] {
      AnyMatchSome(ps[1..], s);
      if AnyMatch(ps[1..], s) {
        var i :| 0 <= i < |ps| - 1 && ReMatch(Tokens(ps[1..][i]), s);
        assert ReMatch(Tokens(ps[i + 1]), s);
      }
      if exists i :: 0 <= i < |ps| && ReMatch(Tokens(ps[i]), s) {
        var i :| 0 <= i < |ps| && ReMatch(Tokens(ps[i]), s);
        if i > 0 { assert ps[1..][i - 1] == ps[i]; }
      }
    }
  }

  /** The order of the patterns (and any repetition) cannot change the verdict. */
  lemma OrderIrrelevant(ps: seq<Rule>, qs: seq<Rule>, s: string)
    requires forall p :: p in ps <==> p in qs
    ensures AnyMatch(ps, s) == AnyMatch(qs, s)
  {
    AnyMatchSome(ps, s);
    AnyMatchSome(qs, s);
    if AnyMatch(ps, s) {
      var i :| 0 <= i < |ps| && ReMatch(Tokens(ps[i]), s);
      assert ps[i] in qs;
      var j :| 0 <= j < |qs| && qs[j] == ps[i];
    }
    if AnyMatch(qs, s) {
      var j :| 0 <= j < |qs| && ReMatch(Tokens(qs[j]), s);
      assert qs[j] in ps;
      var i :| 0 <= i < |ps| && ps[i] == qs[j];
    }
  }

  // ----- the classifier in plain words -----

  /** The patterns in their simplest form: "bot", "automation" or "deploy" on the first
      line; a start of "auto", "ci", "github-actions", "renovate", "greenkeeper",
      "codecov", "snyk" or "whitesource"; or a start of "dynamic" with "readme" later on
      the line. ("[bot]", "dependabot", "workflow...automation" and "deploy..." add
      nothing to these.) */
  predicate PlainRules(s: string) {
    || OnFirstLine(s, "bot") || OnFirstLine(s, "automation") || OnFirstLine(s, "deploy")
    || StartsWith(s, "auto") || StartsWith(s, "ci") || StartsWith(s, "github-actions")
    || StartsWith(s, "renovate") || StartsWith(s, "greenkeeper") || StartsWith(s, "codecov")
    || StartsWith(s, "snyk") || StartsWith(s, "whitesource")
    || (StartsWith(s, "dynamic") && OnFirstLine(s[7..], "readme"))
  }

  /** A name is automated when its lower-cased form meets the plain rules or when the
      stripped name is all digits. */
  predicate Automated(name: string) {
    PlainRules(Lower(name)) || DigitsOnly(Strip(name))
  }

  lemma PatternIsPlain(s: string, i: nat)
    requires i < |BotPatterns| && Meaning(BotPatterns[i], s)
    ensures PlainRules(s)
  {
    if i == 0 {
      assert "[" + "bot" + "]" == "[bot]";
      OnFirstLineInfix(s, "[", "bot", "]");
    } else if i == 2 {
      assert s[..10] == "dependabot";
      assert s[7..][..3] == s[..10][7..10] == "bot";
      OnFirstLineAt(s, "bot", 7);
    } else if i == 4 {
      OnFirstLineAfter(s, 8, "automation");
    } else if i == 8 {
      OnFirstLineAt(s, "deploy", 0);
    }
  }

  lemma PlainIsPattern(s: string)
    requires PlainRules(s)
    ensures exists i :: 0 <= i < |BotPatterns| && Meaning(BotPatterns[i], s)
  {
    if OnFirstLine(s, "bot") { assert Meaning(BotPatterns[1], s); }
    if StartsWith(s, "github-actions") { assert Meaning(BotPatterns[3], s); }
    if StartsWith(s, "dynamic") && OnFirstLine(s[7..], "readme") { assert Meaning(BotPatterns[5], s); }
    if StartsWith(s, "auto") { assert Meaning(BotPatterns[6], s); }
    if StartsWith(s, "ci") { assert Meaning(BotPatterns[7], s); }
    if OnFirstLine(s, "automation") { assert Meaning(BotPatterns[9], s); }
    if StartsWith(s, "renovate") { assert Meaning(BotPatterns[10], s); }
    if StartsWith(s, "greenkeeper") { assert Meaning(BotPatterns[11], s); }
    if StartsWith(s, "codecov") { assert Meaning(BotPatterns[12], s); }
    if StartsWith(s, "snyk") { assert Meaning(BotPatterns[13], s); }
    if StartsWith(s, "whitesource") { assert Meaning(BotPatterns[14], s); }
    if OnFirstLine(s, "deploy") { assert Meaning(BotPatterns[15], s); }
  }

  /** The sixteen patterns, tried in order, say exactly what the plain rules say. */
  lemma PatternsArePlain(s: string)
    ensures AnyMatch(BotPatterns, s) == PlainRules(s)
  {
    AnyMatchSome(BotPatterns, s);
    if AnyMatch(BotPatterns, s) {
      var i :| 0 <= i < |BotPatterns| && ReMatch(Tokens(BotPatterns[i]), s);
      RuleMeaning(BotPatterns[i], s);
      PatternIsPlain(s, i);
    }
    if PlainRules(s) {
      PlainIsPattern(s);
      var i :| 0 <= i < |BotPatterns| && Meaning(BotPatterns[i], s);
      RuleMeaning(BotPatterns[i], s);
    }
  }

  /** The classifier of the source is the plain-words classifier. */
  lemma AutomatedIff(name: string)
    ensures IsAutomated(name) == Automated(name)
  {
    PatternsArePlain(Lower(name));
  }

  // ----- examples -----

  /** A word holding a character the name lacks is not on its first line. */
  lemma {:induction false} LackedChar(s: string, w: string, c: char)
    requires c in w && c !in s
    ensures !OnFirstLine(s, w)
    decreases |s|
  {
    if s != [] {
      LackedChar(s[1..], w, c);
    }
  }

  /** A name without a digit is never a bare number. */
  lemma NoDigits(name: string)
    requires forall i :: 0 <= i < |name| ==> !IsDigit(name[i])
    ensures !DigitsOnly(Strip(name))
  {
    var t := Strip(name);
    if t != [] {
      assert t[0] in name;
    }
  }

  // ----- the top human contributor -----

  /** The entries whose author the classifier `bot` calls human, in their order
      (the `human_contributors` dict). */
  function Humans(t: Tally, bot: string -> bool): (h: Tally)
    ensures |h| <= |t|
    ensures forall e :: e in h <==> e in t && !bot(e.0)
  {
    if t == [] then []
    else
      var h := Humans(t[..|t| - 1], bot);
      var e := t[|t| - 1];
      assert t == t[..|t| - 1] + [e];
      if bot(e.0) then h else h + [e]
  }

  /** `get_top_human_contributor`: `max` over the human entries, or `None` when there
      are none. */
  function TopHuman(t: Tally, bot: string -> bool): Option<Entry> {
    var h := Humans(t, bot);
    if h == [] then None else Some(h[ArgMax(h)])
  }

  /** The best human so far, updated by one more entry the way `max` scans. */
  lemma TopHumanSnoc(t: Tally, bot: string -> bool)
    requires t != []
    ensures TopHuman(t, bot)
         == (var b := TopHuman(t[..|t| - 1], bot);
             var e := t[|t| - 1];
             if bot(e.0) then b
             else if b.None? || e.1 > b.value.1 then Some(e)
             else b)
  {
    var h := Humans(t[..|t| - 1], bot);
    var e := t[|t| - 1];
    if !bot(e.0) && h != [] {
      assert (h + [e])[..|h|] == h;
    }
  }

  /** The top human is `None` exactly when every author is automated; otherwise it is
      a human entry of the mapping with the largest human count. */
  lemma TopHumanSpec(t: Tally, bot: string -> bool)
    ensures TopHuman(t, bot).None? <==> forall i :: 0 <= i < |t| ==> bot(t[i].0)
    ensures TopHuman(t, bot).Some? ==>
              var e := TopHuman(t, bot).value;
              && e in t && !bot(e.0)
              && (forall i :: 0 <= i < |t| && !bot(t[i].0) ==> t[i].1 <= e.1)
  {
    var h := Humans(t, bot);
    if h == [] {
      forall i | 0 <= i < |t| ensures bot(t[i].0) {
        assert t[i] in t;
      }
    } else {
      assert h[0] in t;
      var k := ArgMax(h);
      forall i | 0 <= i < |t| && !bot(t[i].0) ensures t[i].1 <= h[k].1 {
        assert t[i] in h;
        var j :| 0 <= j < |h| && h[j] == t[i];
      }
    }
  }

  /** Among human entries with the top count, the top human is the first one met. */
  lemma {:induction false} TopHumanFirst(t: Tally, bot: string -> bool, i: nat)
    requires i < |t| && !bot(t[i].0) && TopHuman(t, bot).Some?
    requires t[i].1 == TopHuman(t, bot).value.1
    ensures TopHuman(t, bot).value in t[..i + 1]
    decreases |t|
  {
    if i == |t| - 1 {
      assert t[..i + 1] == t;
      TopHumanSpec(t, bot);
    } else {
      var u := t[..|t| - 1];
      assert t[i] == u[i];
      TopHumanSnoc(t, bot);
      TopHumanSpec(u, bot);
      assert TopHuman(t, bot) == TopHuman(u, bot);
      TopHumanFirst(u, bot, i);
      assert u[..i + 1] == t[..i + 1];
    }
  }

  /** The first `n` humans of the descending sort, the human top list: min(n, number
      of human entries) of them, in non-increasing order, each a human entry of the
      mapping. */
  lemma {:induction false} HumanLeaderboard(t: Tally, bot: string -> bool, n: nat)
    ensures var l := Leaderboard(Humans(t, bot), n);
      |l| == if n < |Humans(t, bot)| then n else |Humans(t, bot)|
    ensures Descending(Leaderboard(Humans(t, bot), n), Count)
    ensures var l := Leaderboard(Humans(t, bot), n);
      forall j :: 0 <= j < |l| ==> l[j] in t && !bot(l[j].0)
  {
    var h := Humans(t, bot);
    var l := Leaderboard(h, n);
    LeaderboardSpec(h, n);
    forall j | 0 <= j < |l| ensures l[j] in t && !bot(l[j].0) {
      assert l[j] in h;
    }
  }

  /** Every human entry of the mapping left off the human top list counts no more
      than any entry kept, and a list shorter than `n` holds every human entry. */
  lemma {:induction false} HumanLeaderboardCut(t: Tally, bot: string -> bool, n: nat)
    ensures var l := Leaderboard(Humans(t, bot), n);
      forall i, j :: 0 <= i < |l| && 0 <= j < |t| && !bot(t[j].0) && t[j] !in l ==> t[j].1 <= l[i].1
    ensures var l := Leaderboard(Humans(t, bot), n);
      |l| < n ==> forall j :: 0 <= j < |t| && !bot(t[j].0) ==> t[j] in l
  {
    var h := Humans(t, bot);
    LeaderboardCut(h, n);
    LeaderboardCovers(h, n);
    forall j | 0 <= j < |t| && !bot(t[j].0) ensures t[j] in h {
      assert t[j] in t;
    }
  }

  /** The human entries are as many as the positions of the mapping whose author the
      classifier calls human. */
  lemma {:induction false} HumansCount(t: Tally, bot: string -> bool)
    ensures |Humans(t, bot)| == |set i | 0 <= i < |t| && !bot(t[i].0)|
  {
    if t != [] {
      HumansCount(t[..|t| - 1], bot);
      HumanPositionsSnoc(t, bot);
    }
  }

  /** One more entry adds its position to the human positions exactly when it is
      human. */
  lemma HumanPositionsSnoc(t: Tally, bot: string -> bool)
    requires t != []
    ensures var m := |t| - 1;
      |set i | 0 <= i < |t| && !bot(t[i].0)|
        == |set i | 0 <= i < m && !bot(t[..m][i].0)| + (if bot(t[m].0) then 0 else 1)
  {
    var m := |t| - 1;
    var u := t[..m];
    var su := set i | 0 <= i < m && !bot(u[i].0);
    var st := set i | 0 <= i < |t| && !bot(t[i].0);
    var last: set<int> := if bot(t[m].0) then {} else {m};
    forall i ensures i in st <==> i in su + last {
      if 0 <= i < m { assert u[i] == t[i]; }
    }
    assert st == su + last;
    assert m !in su;
  }

  /** Every author of the human entries is an author of the mapping. */
  lemma HumansKeys(t: Tally, bot: string -> bool)
    ensures KeySet(Humans(t, bot)) <= KeySet(t)
  {
    var h := Humans(t, bot);
    forall a | a in KeySet(h) ensures a in KeySet(t) {
      KeySetIndex(h, a);
      var j :| 0 <= j < |h| && h[j].0 == a;
      assert h[j] in t;
      var i :| 0 <= i < |t| && t[i] == h[j];
      KeySetIndex(t, a);
    }
  }

  /** In a mapping with unique authors, an author is not among the earlier ones. */
  lemma FreshKey(t: Tally, i: nat)
    requires UniqueKeys(t) && i < |t|
    ensures t[i].0 !in KeySet(t[..i])
  {
    KeySetIndex(t[..i], t[i].0);
  }

  /** One more entry of a mapping with unique authors: a human is put in as a new
      author. */
  lemma HumansStep(all: Tally, i: nat, bot: string -> bool)
    requires UniqueKeys(all) && i < |all|
    ensures Humans(all[..i + 1], bot)
         == if bot(all[i].0) then Humans(all[..i], bot) else Put(Humans(all[..i], bot), all[i].0, all[i].1)
  {
    var e := all[i];
    assert all[..i + 1][..i] == all[..i];
    assert all[..i + 1][i] == e;
    if !bot(e.0) {
      FreshKey(all, i);
      HumansKeys(all[..i], bot);
      assert Humans(all[..i + 1], bot) == Humans(all[..i], bot) + [e];
    }
  }

  /** The loop of `get_top_human_contributor`, then its `max`. */
  method TopHumanContributor(all: Tally, bot: string -> bool) returns (r: Option<Entry>)
    requires UniqueKeys(all)
    ensures r == TopHuman(all, bot)
  {
    var humans: Tally := [];
    var i := 0;
    while i < |all|
      invariant 0 <= i <= |all|
      invariant humans == Humans(all[..i], bot)
    {
      var e := all[i];
      HumansStep(all, i, bot);
      if !bot(e.0) {
        humans := Put(humans, e.0, e.1);
      }
      i := i + 1;
    }
    assert all[..i] == all;
    assert humans == Humans(all, bot);
    if humans == [] {
      r := None;
    } else {
      r := Some(humans[ArgMax(humans)]);
    }
  }
}
