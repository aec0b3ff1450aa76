/** Turning what a user typed into repository names and clone URLs.

    The Streamlit and Tk front ends take one name per line, drop blank and `#` lines,
    remove the organisation URL prefixes and the surrounding slashes. The bulk Tk tool
    and the URL-list GUI only remove the prefixes. The command-line tools accept a full
    URL or an `owner/repo` shorthand that they complete to a GitHub URL. */
module RepoNames {
  import opened Optional
  import opened PyStr

  /** The organisation every name typed as a bare name belongs to. */
  const TrPrefix: string := "https://github.com/tr/"
  const GithubPrefix: string := "https://github.com/"

  // ---------------------------------------------------------------------------
  // One entry per line

  /** The entries the lines contribute, in input order, when `clean` says what each
      line contributes. */
  function Kept(lines: seq<string>, clean: string -> Option<string>): seq<string> {
    if lines == [] then []
    else
      var n := |lines| - 1;
      Kept(lines[..n], clean) + (match clean(lines[n]) case Some(r) => [r] case None => [])
  }

  /** At most one entry per line, each satisfying what every line's entry satisfies, and
      none exactly when no line contributes one. */
  lemma {:induction false} KeptSpec(lines: seq<string>, clean: string -> Option<string>, ok: string -> bool)
    requires forall i :: 0 <= i < |lines| && clean(lines[i]).Some? ==> ok(clean(lines[i]).value)
    ensures |Kept(lines, clean)| <= |lines|
    ensures forall n :: n in Kept(lines, clean) ==> ok(n)
    ensures Kept(lines, clean) == [] <==> forall i :: 0 <= i < |lines| ==> clean(lines[i]).None?
  {
    if lines != [] {
      var n := |lines| - 1;
      assert forall i :: 0 <= i < n ==> lines[..n][i] == lines[i];
      KeptSpec(lines[..n], clean, ok);
    }
  }

  /** The entries of one more line. */
  lemma KeptSnoc(lines: seq<string>, i: nat, clean: string -> Option<string>)
    requires i < |lines|
    ensures Kept(lines[..i + 1], clean)
         == Kept(lines[..i], clean) + (match clean(lines[i]) case Some(r) => [r] case None => [])
  {
    assert lines[..i + 1][..i] == lines[..i];
  }

  /** The line loop: `for line in lines`, appending what each line contributes. */
  method KeepLines(lines: seq<string>, clean: string -> Option<string>) returns (kept: seq<string>)
    ensures kept == Kept(lines, clean)
  {
    kept := [];
    var i := 0;
    while i < |lines|
      invariant 0 <= i <= |lines|
      invariant kept == Kept(lines[..i], clean)
    {
      var entry := clean(lines[i]);
      if entry.Some? {
        kept := kept + [entry.value];
      }
      KeptSnoc(lines, i, clean);
      i := i + 1;
    }
    assert lines[..i] == lines;
  }

  /** Entries keep the order of their lines: the entries of two blocks of lines are
      those of the first block followed by those of the second. */
  lemma {:induction false} KeptAppend(xs: seq<string>, ys: seq<string>, clean: string -> Option<string>)
    ensures Kept(xs + ys, clean) == Kept(xs, clean) + Kept(ys, clean)
    decreases |ys|
  {
    if ys == [] {
      assert xs + ys == xs;
    } else {
      var n := |ys| - 1;
      var zs := xs + ys;
      var c := match clean(ys[n]) case Some(r) => [r] case None => [];
      KeptAppend(xs, ys[..n], clean);
      assert zs[..|zs| - 1] == xs + ys[..n];
      assert zs[|zs| - 1] == ys[n];
      assert Kept(zs, clean) == Kept(xs + ys[..n], clean) + c;
      assert Kept(ys, clean) == Kept(ys[..n], clean) + c;
      assert Kept(xs, clean) + Kept(ys[..n], clean) + c == Kept(xs, clean) + (Kept(ys[..n], clean) + c);
    }
  }

  /** Filtering with `f` and then with `g` is filtering with their composition. */
  lemma {:induction false} KeptThen(lines: seq<string>, f: string -> Option<string>, g: string -> Option<string>,
                                    h: string -> Option<string>)
    requires forall x :: h(x) == (match f(x) case Some(y) => g(y) case None => None)
    ensures Kept(Kept(lines, f), g) == Kept(lines, h)
  {
    if lines != [] {
      var n := |lines| - 1;
      KeptThen(lines[..n], f, g, h);
      var before := Kept(lines[..n], f);
      assert Kept(lines, h) == Kept(lines[..n], h) + (match h(lines[n]) case Some(r) => [r] case None => []);
      match f(lines[n]) {
        case None =>
          assert Kept(lines, f) == before;
          assert h(lines[n]).None?;
        case Some(y) =>
          assert Kept(lines, f) == before + [y];
          KeptAppend(before, [y], g);
          assert [y][..0] == [];
          assert Kept([y], g) == (match g(y) case Some(r) => [r] case None => []);
          assert h(lines[n]) == g(y);
      }
    }
  }

  // ---------------------------------------------------------------------------
  // Prefix removal

  /** `line.replace(TrPrefix, '').replace(GithubPrefix, '')`: every occurrence of the
      two prefixes is removed, the organisation one first. */
  function RemovePrefixes(line: string): string {
    Replace(Replace(line, TrPrefix, ""), GithubPrefix, "")
  }

  /** The clone URL of a repository of the organisation. */
  function TrUrl(name: string): (url: string)
    ensures StartsWith(url, TrPrefix) && url[|TrPrefix|..] == name
  {
    TrPrefix + name
  }

  /** Replacing adds no character that is in neither the string nor the replacement. */
  lemma {:induction false} ReplaceFree(s: string, pat: string, rep: string, c: char)
    requires |pat| > 0 && c !in s && c !in rep
    ensures c !in Replace(s, pat, rep)
    decreases |s|
  {
    if |s| > 0 {
      if StartsWith(s, pat) {
        ReplaceFree(s[|pat|..], pat, rep, c);
      } else {
        ReplaceFree(s[1..], pat, rep, c);
      }
    }
  }

  /** Removing the prefixes adds no character. */
  lemma RemovePrefixesFree(s: string, c: char)
    requires c !in s
    ensures c !in RemovePrefixes(s)
  {
    ReplaceFree(s, TrPrefix, "", c);
    ReplaceFree(Replace(s, TrPrefix, ""), GithubPrefix, "", c);
  }

  /** The organisation prefix extends the GitHub prefix, so a string without the latter
      has neither. */
  lemma NoPrefixes(x: string, tr: string, gh: string)
    requires tr == TrPrefix && gh == GithubPrefix
    requires !Contains(x, gh)
    ensures !Contains(x, tr)
  {
    if Contains(x, tr) {
      assert tr == "" + gh + "tr/";
      ContainsInfix(x, "", gh, "tr/");
    }
  }

  /** The organisation URL of a name without either prefix loses exactly the prefix. */
  lemma RemoveTrPrefix(x: string, tr: string, gh: string)
    requires tr == TrPrefix && gh == GithubPrefix
    requires !Contains(x, gh)
    ensures RemovePrefixes(tr + x) == x
  {
    NoPrefixes(x, tr, gh);
    ReplaceLeading(tr, x, "");
    assert Replace(tr + x, tr, "") == x;
  }

  /** A name without either prefix is left as it is. */
  lemma RemoveNoPrefix(x: string, tr: string, gh: string)
    requires tr == TrPrefix && gh == GithubPrefix
    requires !Contains(x, gh)
    ensures RemovePrefixes(x) == x
  {
    NoPrefixes(x, tr, gh);
  }

  // ---------------------------------------------------------------------------
  // Streamlit and Tk: one name per line, comments skipped, slashes stripped

  /** The name one input line contributes, if any. */
  function CleanLine(raw: string): Option<string> {
    var line := Strip(raw);
    if line == [] || StartsWith(line, "#") then None
    else
      var repo := StripSlashes(RemovePrefixes(line));
      if repo == [] then None else Some(repo)
  }

  /** The names typed into the repository box, in input order. */
  function RepoNamesOf(text: string): seq<string> {
    Kept(Split(Strip(text), '\n'), CleanLine)
  }

  /** What a cleaned name looks like. */
  predicate CleanName(n: string) {
    n != [] && n[0] != '/' && n[|n| - 1] != '/' && '\n' !in n
  }

  /** A line without a line break yields a clean name, if any. */
  lemma CleanLineSpec(raw: string)
    requires '\n' !in raw
    ensures CleanLine(raw).Some? ==> CleanName(CleanLine(raw).value)
  {
    var line := Strip(raw);
    if CleanLine(raw).Some? {
      StripFree(raw, '\n');
      RemovePrefixesFree(line, '\n');
      StripSlashesFree(RemovePrefixes(line), '\n');
      assert CleanLine(raw).value == StripSlashes(RemovePrefixes(line));
    }
  }

  /** Stripping spaces adds no character. */
  lemma StripFree(s: string, c: char)
    requires c !in s
    ensures c !in Strip(s)
  {
  }

  /** Stripping slashes adds no character. */
  lemma StripSlashesFree(s: string, c: char)
    requires c !in s
    ensures c !in StripSlashes(s)
  {
  }

  /** The repository box yields clean names, at most one per line, and none when no
      line yields one. */
  lemma RepoNamesSpec(text: string)
    ensures |RepoNamesOf(text)| <= |Split(Strip(text), '\n')|
    ensures forall n :: n in RepoNamesOf(text) ==> CleanName(n)
    ensures RepoNamesOf(text) == [] <==>
      forall i :: 0 <= i < |Split(Strip(text), '\n')| ==> CleanLine(Split(Strip(text), '\n')[i]).None?
  {
    var lines := Split(Strip(text), '\n');
    forall i | 0 <= i < |lines|
      ensures CleanLine(lines[i]).Some? ==> CleanName(CleanLine(lines[i]).value)
    {
      CleanLineSpec(lines[i]);
    }
    KeptSpec(lines, CleanLine, CleanName);
  }

  /** A comment line contributes nothing, whatever follows the `#`. */
  lemma CommentSkipped(pad: string, rest: string)
    requires forall i :: 0 <= i < |pad| ==> IsSpace(pad[i])
    ensures CleanLine(pad + "#" + rest) == None
  {
    StripStarts(pad, '#', rest);
    var line := Strip(pad + "#" + rest);
    assert line[..1] == "#";
  }

  /** Stripping padding keeps the first character that is not a space. */
  lemma StripStarts(pad: string, c: char, rest: string)
    requires forall i :: 0 <= i < |pad| ==> IsSpace(pad[i])
    requires !IsSpace(c)
    ensures Strip(pad + [c] + rest) != [] && Strip(pad + [c] + rest)[0] == c
  {
    var s := pad + [c] + rest;
    assert s == pad + ([c] + rest);
    TrimLeftPadded(pad, [c] + rest, IsSpace);
    var l := TrimLeft(s, IsSpace);
    assert l[0] == c;
    var r := TrimRight(l, IsSpace);
    assert r != [];
    assert Strip(s) == r;
  }

  /** `strip('/')` leaves a string alone that neither begins nor ends with a slash. */
  lemma StripSlashesKeeps(x: string)
    requires x != [] && x[0] != '/' && x[|x| - 1] != '/'
    ensures StripSlashes(x) == x
  {
    TrimLeftPadded("", x, IsSlash);
    assert "" + x == x;
    TrimRightPadded(x, "", IsSlash);
    assert x + "" == x;
  }

  /** The name of a stripped line that holds no `#` at its start. */
  lemma CleanLineOf(raw: string, line: string)
    requires Strip(raw) == line && line != [] && line[0] != '#'
    ensures CleanLine(raw) == (var repo := StripSlashes(RemovePrefixes(line));
                               if repo == [] then None else Some(repo))
  {
  }

  /** A full organisation URL typed on a line, possibly padded with spaces, yields the
      bare repository name. */
  lemma CleanTrUrl(pre: string, x: string, post: string)
    requires forall i :: 0 <= i < |pre| ==> IsSpace(pre[i])
    requires forall i :: 0 <= i < |post| ==> IsSpace(post[i])
    requires x != [] && !IsSpace(x[|x| - 1]) && x[0] != '/' && x[|x| - 1] != '/'
    requires !Contains(x, GithubPrefix)
    ensures CleanLine(pre + TrPrefix + x + post) == Some(x)
  {
    CleanPrefixedUrl(pre, x, post, TrPrefix, GithubPrefix);
  }

  /** `CleanTrUrl` with the prefixes passed in. */
  lemma CleanPrefixedUrl(pre: string, x: string, post: string, tr: string, gh: string)
    requires tr == TrPrefix && gh == GithubPrefix
    requires forall i :: 0 <= i < |pre| ==> IsSpace(pre[i])
    requires forall i :: 0 <= i < |post| ==> IsSpace(post[i])
    requires x != [] && !IsSpace(x[|x| - 1]) && x[0] != '/' && x[|x| - 1] != '/'
    requires !Contains(x, gh)
    ensures CleanLine(pre + tr + x + post) == Some(x)
  {
    var t := tr + x;
    StripPrefixed(pre, x, post, tr);
    RemoveTrPrefix(x, tr, gh);
    StripSlashesKeeps(x);
    CleanLineOf(pre + tr + x + post, t);
  }

  /** Padding around a URL is stripped. */
  lemma StripPrefixed(pre: string, x: string, post: string, tr: string)
    requires tr != [] && !IsSpace(tr[0])
    requires forall i :: 0 <= i < |pre| ==> IsSpace(pre[i])
    requires forall i :: 0 <= i < |post| ==> IsSpace(post[i])
    requires x != [] && !IsSpace(x[|x| - 1])
    ensures Strip(pre + tr + x + post) == tr + x
  {
    var t := tr + x;
    assert t[0] == tr[0] && t[|t| - 1] == x[|x| - 1];
    assert pre + tr + x == pre + t;
    StripAround(pre, t, post);
  }

  /** A bare name typed on a line, possibly padded with spaces, is kept as it is. */
  lemma CleanBareName(pre: string, x: string, post: string)
    requires forall i :: 0 <= i < |pre| ==> IsSpace(pre[i])
    requires forall i :: 0 <= i < |post| ==> IsSpace(post[i])
    requires x != [] && !IsSpace(x[0]) && !IsSpace(x[|x| - 1])
    requires x[0] != '#' && x[0] != '/' && x[|x| - 1] != '/'
    requires !Contains(x, GithubPrefix)
    ensures CleanLine(pre + x + post) == Some(x)
  {
    StripAround(pre, x, post);
    RemoveNoPrefix(x, TrPrefix, GithubPrefix);
    StripSlashesKeeps(x);
    CleanLineOf(pre + x + post, x);
  }

  /** The loop of `get_repo_names` over the lines of the text. */
  method CleanLines(lines: seq<string>) returns (repos: seq<string>)
    ensures repos == Kept(lines, CleanLine)
  {
    repos := KeepLines(lines, CleanLine);
  }

  /** `get_repo_names` of the Tk front end; the Streamlit page runs the same steps
      over the same text. */
  method GetRepoNames(text: string) returns (repos: seq<string>)
    ensures repos == RepoNamesOf(text)
  {
    var content := Strip(text);
    if content == [] {
      assert Split(content, '\n') == [""] by { SplitFree(content, '\n'); }
      assert Kept([""], CleanLine) == Kept([], CleanLine) + [];
      return [];
    }
    repos := CleanLines(Split(content, '\n'));
  }

  // ---------------------------------------------------------------------------
  // Bulk Tk tool and URL-list GUI: prefixes removed, nothing else

  /** The name one input line contributes in the bulk tool. */
  function BulkLine(raw: string): Option<string> {
    var line := Strip(raw);
    if line == [] then None
    else
      var repo := RemovePrefixes(line);
      if repo == [] then None else Some(repo)
  }

  /** The names typed into the bulk tool's box, in input order. */
  function BulkNamesOf(text: string): seq<string> {
    Kept(Split(Strip(text), '\n'), BulkLine)
  }

  /** What a name of the bulk tool looks like. */
  predicate BulkName(n: string) {
    n != [] && '\n' !in n
  }

  /** The Streamlit and Tk cleaning is the bulk cleaning followed by stripping the
      slashes, except that it also skips lines beginning with `#` and names that were
      only slashes. */
  lemma CleanIsBulkThenSlashes(raw: string)
    ensures CleanLine(raw).Some? <==>
      BulkLine(raw).Some? && !StartsWith(Strip(raw), "#") && StripSlashes(BulkLine(raw).value) != []
    ensures CleanLine(raw).Some? ==> CleanLine(raw).value == StripSlashes(BulkLine(raw).value)
  {
    var line := Strip(raw);
    if line != [] && RemovePrefixes(line) == [] {
      assert StripSlashes([]) == [];
    }
  }

  /** The bulk box yields non-empty names without line breaks, at most one per line. */
  lemma BulkNamesSpec(text: string)
    ensures |BulkNamesOf(text)| <= |Split(Strip(text), '\n')|
    ensures forall n :: n in BulkNamesOf(text) ==> BulkName(n)
  {
    var lines := Split(Strip(text), '\n');
    forall i | 0 <= i < |lines|
      ensures BulkLine(lines[i]).Some? ==> BulkName(BulkLine(lines[i]).value)
    {
      if BulkLine(lines[i]).Some? {
        assert '\n' !in Strip(lines[i]);
        RemovePrefixesFree(Strip(lines[i]), '\n');
      }
    }
    KeptSpec(lines, BulkLine, BulkName);
  }

  /** The loop of the bulk tool's `get_repo_names` over the lines of the text. */
  method BulkLines(lines: seq<string>) returns (names: seq<string>)
    ensures names == Kept(lines, BulkLine)
  {
    names := KeepLines(lines, BulkLine);
  }

  /** `get_repo_names` of the bulk tool. */
  method GetBulkNames(text: string) returns (names: seq<string>)
    ensures names == BulkNamesOf(text)
  {
    var content := Strip(text);
    if content == [] {
      assert Split(content, '\n') == [""] by { SplitFree(content, '\n'); }
      assert Kept([""], BulkLine) == Kept([], BulkLine) + [];
      return [];
    }
    names := BulkLines(Split(content, '\n'));
  }

  // ---------------------------------------------------------------------------
  // Command-line tools: a URL or an `owner/repo` shorthand

  /** The batch tool: an argument that is not a URL but holds a slash is completed to a
      GitHub URL; any other argument is kept as it is. */
  function ShorthandUrl(arg: string): string {
    if !StartsWith(arg, "http") && '/' in arg then GithubPrefix + arg else arg
  }

  /** The single-repository tool (and each line of the multi-repository tool): the same
      completion, but an empty argument and a slash-free non-URL are rejected. */
  function CheckedUrl(arg: string): Option<string> {
    if arg == [] then None
    else if !StartsWith(arg, "http") then
      if '/' in arg then Some(GithubPrefix + arg) else None
    else Some(arg)
  }

  /** A completed URL starts with the GitHub prefix. */
  lemma CompletedIsGithub(arg: string)
    ensures StartsWith(GithubPrefix + arg, GithubPrefix) && StartsWith(GithubPrefix + arg, "http")
  {
    assert (GithubPrefix + arg)[..|GithubPrefix|] == GithubPrefix;
    assert (GithubPrefix + arg)[..4] == "http";
  }

  /** The checking tools accept exactly the arguments that are non-empty and either a
      URL or a shorthand, complete them as the batch tool does, and so always yield a
      URL. */
  lemma CheckedUrlSpec(arg: string)
    ensures CheckedUrl(arg).None? <==> arg == [] || (!StartsWith(arg, "http") && '/' !in arg)
    ensures CheckedUrl(arg).Some? ==> CheckedUrl(arg).value == ShorthandUrl(arg)
    ensures CheckedUrl(arg).Some? ==> StartsWith(CheckedUrl(arg).value, "http")
  {
    CompletedIsGithub(arg);
  }

  /** Completion is idempotent: a completed argument is a URL and is kept. */
  lemma ShorthandIdempotent(arg: string)
    ensures ShorthandUrl(ShorthandUrl(arg)) == ShorthandUrl(arg)
  {
    CompletedIsGithub(arg);
  }

  /** `url.split('/')[-1].replace('.git', '')`: the repository name of a URL. */
  function RepoNameOf(url: string): string {
    Replace(LastSegment(url, '/'), ".git", "")
  }

  /** A string free of a pattern's first character, followed by the pattern, has the
      pattern replaced once, at the end. */
  lemma {:induction false} ReplaceTail(x: string, pat: string, rep: string)
    requires |pat| > 0 && pat[0] !in x
    ensures Replace(x + pat, pat, rep) == x + rep
    decreases |x|
  {
    if x == [] {
      assert x + pat == pat + [];
      ReplaceLeading(pat, [], rep);
      assert Replace([], pat, rep) == [];
      assert x + rep == rep + [];
    } else {
      var y := x + pat;
      assert y[0] == x[0];
      assert !StartsWith(y, pat);
      assert y[1..] == x[1..] + pat;
      ReplaceTail(x[1..], pat, rep);
      assert Replace(y, pat, rep) == [x[0]] + Replace(y[1..], pat, rep);
      assert [x[0]] + (x[1..] + rep) == x + rep;
    }
  }

  /** A one-character string occurs only where its character does. */
  lemma {:induction false} ContainsChar(s: string, c: char)
    requires Contains(s, [c])
    ensures c in s
    decreases |s|
  {
    if StartsWith(s, [c]) {
      assert s[0] == c;
    } else {
      ContainsChar(s[1..], c);
    }
  }

  /** The name of `…/owner/name` and of `…/owner/name.git` is `name`, for a name
      without dots or slashes. */
  lemma RepoNameOfUrl(base: string, name: string)
    requires '/' !in name && '.' !in name
    ensures RepoNameOf(base + "/" + name) == name
    ensures RepoNameOf(base + "/" + name + ".git") == name
  {
    LastSegmentAfter(base, name, '/');
    assert !Contains(name, ".git") by {
      if Contains(name, ".git") {
        assert ".git" == "" + "." + "git";
        ContainsInfix(name, "", ".", "git");
        ContainsChar(name, '.');
      }
    }
    assert base + "/" + name + ".git" == base + ['/'] + (name + ".git");
    LastSegmentAfter(base, name + ".git", '/');
    ReplaceTail(name, ".git", "");
    assert name + "" == name;
  }

  // ---------------------------------------------------------------------------
  // The multi-repository tool's prompt loop

  /** The entries read until the first line that `ends` the input; `entry` says what
      each earlier line contributes. */
  function Accepted(inputs: seq<string>, ends: string -> bool, entry: string -> Option<string>): seq<string>
    decreases |inputs|
  {
    if inputs == [] || ends(inputs[0]) then []
    else (match entry(inputs[0]) case Some(u) => [u] case None => []) + Accepted(inputs[1..], ends, entry)
  }

  /** The position of the first line that ends the input, or `None` when the lines run
      out first, where `input()` raises EOFError. */
  function EndAt(inputs: seq<string>, ends: string -> bool): (r: Option<nat>)
    ensures r.Some? ==> r.value < |inputs| && ends(inputs[r.value])
    ensures r.Some? ==> forall i :: 0 <= i < r.value ==> !ends(inputs[i])
    ensures r.None? <==> forall i :: 0 <= i < |inputs| ==> !ends(inputs[i])
    decreases |inputs|
  {
    if inputs == [] then None
    else if ends(inputs[0]) then Some(0)
    else match EndAt(inputs[1..], ends) case Some(k) => Some(k + 1) case None => None
  }

  /** Input ends at a blank line or at `done`, in any case. */
  predicate EndsInput(raw: string) {
    var url := Strip(raw);
    url == [] || Lower(url) == "done"
  }

  /** A line before the end contributes its checked URL. */
  function InputUrl(raw: string): Option<string> {
    CheckedUrl(Strip(raw))
  }

  /** The URLs `get_urls_from_user` collects from the lines typed. */
  function UrlsFromUser(inputs: seq<string>): seq<string> {
    Accepted(inputs, EndsInput, InputUrl)
  }

  /** At most one entry per line, each satisfying what every entry satisfies. */
  lemma {:induction false} AcceptedSpec(inputs: seq<string>, ends: string -> bool,
                                        entry: string -> Option<string>, ok: string -> bool)
    requires forall i :: 0 <= i < |inputs| && entry(inputs[i]).Some? ==> ok(entry(inputs[i]).value)
    ensures |Accepted(inputs, ends, entry)| <= |inputs|
    ensures forall u :: u in Accepted(inputs, ends, entry) ==> ok(u)
    decreases |inputs|
  {
    if inputs != [] && !ends(inputs[0]) {
      assert forall i :: 0 <= i < |inputs| - 1 ==> inputs[1..][i] == inputs[i + 1];
      AcceptedSpec(inputs[1..], ends, entry, ok);
    }
  }

  /** Nothing after a line that ends the input is read. */
  lemma {:induction false} AcceptedStops(inputs: seq<string>, ends: string -> bool,
                                         entry: string -> Option<string>, k: nat)
    requires k < |inputs| && ends(inputs[k])
    ensures Accepted(inputs, ends, entry) == Accepted(inputs[..k], ends, entry)
    decreases k
  {
    if k > 0 && !ends(inputs[0]) {
      assert inputs[1..][k - 1] == inputs[k];
      AcceptedStops(inputs[1..], ends, entry, k - 1);
      assert inputs[1..][..k - 1] == inputs[..k][1..];
    }
  }

  /** What the lines from `i` on contribute: nothing if line `i` ends the input,
      otherwise its entry before the rest. */
  lemma AcceptedStep(inputs: seq<string>, i: nat, ends: string -> bool, entry: string -> Option<string>)
    requires i < |inputs|
    ensures Accepted(inputs[i..], ends, entry)
         == if ends(inputs[i]) then []
            else (match entry(inputs[i]) case Some(u) => [u] case None => []) + Accepted(inputs[i + 1..], ends, entry)
  {
    assert inputs[i..][0] == inputs[i];
    assert inputs[i..][1..] == inputs[i + 1..];
  }

  /** What the prompt loop accepts as a URL. */
  predicate IsUrl(u: string) {
    StartsWith(u, "http")
  }

  /** Every URL collected starts with `http`, there is at most one per line, and a
      blank or `done` line ends the input: nothing after it is read. */
  lemma UrlsFromUserSpec(inputs: seq<string>, k: nat)
    ensures |UrlsFromUser(inputs)| <= |inputs|
    ensures forall u :: u in UrlsFromUser(inputs) ==> IsUrl(u)
    ensures k < |inputs| && EndsInput(inputs[k]) ==> UrlsFromUser(inputs) == UrlsFromUser(inputs[..k])
  {
    forall i | 0 <= i < |inputs|
      ensures InputUrl(inputs[i]).Some? ==> IsUrl(InputUrl(inputs[i]).value)
    {
      CheckedUrlSpec(Strip(inputs[i]));
    }
    AcceptedSpec(inputs, EndsInput, InputUrl, IsUrl);
    if k < |inputs| && EndsInput(inputs[k]) {
      AcceptedStops(inputs, EndsInput, InputUrl, k);
    }
  }

  /** The entry a line contributes, as a list of at most one URL. */
  function EntryOf(line: string, entry: string -> Option<string>): seq<string> {
    match entry(line) case Some(u) => [u] case None => []
  }

  /** A line that does not end the input moves its entry from the unread part to the
      list read so far. */
  lemma ReadStep(inputs: seq<string>, i: nat, ends: string -> bool, entry: string -> Option<string>,
                 urls: seq<string>)
    requires i < |inputs| && !ends(inputs[i])
    requires urls + Accepted(inputs[i..], ends, entry) == Accepted(inputs, ends, entry)
    ensures (urls + EntryOf(inputs[i], entry)) + Accepted(inputs[i + 1..], ends, entry)
         == Accepted(inputs, ends, entry)
  {
    AcceptedStep(inputs, i, ends, entry);
    var e := EntryOf(inputs[i], entry);
    var rest := Accepted(inputs[i + 1..], ends, entry);
    assert Accepted(inputs[i..], ends, entry) == e + rest;
    assert urls + (e + rest) == (urls + e) + rest;
  }

  /** At a line that ends the input, the list read so far is the whole answer. */
  lemma ReadEnd(inputs: seq<string>, i: nat, ends: string -> bool, entry: string -> Option<string>,
                urls: seq<string>)
    requires i < |inputs| && ends(inputs[i])
    requires urls + Accepted(inputs[i..], ends, entry) == Accepted(inputs, ends, entry)
    ensures urls == Accepted(inputs, ends, entry)
  {
    AcceptedStep(inputs, i, ends, entry);
    assert urls + [] == urls;
  }

  /** The prompt loop of `get_urls_from_user`: read lines until one `ends` the input,
      keeping the entry of each line that has one. `read` is `None` when the lines run
      out first (`input()` raises EOFError); `next` is the number of lines consumed. */
  method ReadUntil(inputs: seq<string>, ends: string -> bool, entry: string -> Option<string>)
    returns (read: Option<seq<string>>, next: nat)
    ensures read.Some? <==> EndAt(inputs, ends).Some?
    ensures read.Some? ==> read.value == Accepted(inputs, ends, entry) && next == EndAt(inputs, ends).value + 1
    ensures read.None? ==> next == |inputs|
  {
    var urls := [];
    var i := 0;
    assert inputs[i..] == inputs;
    while i < |inputs|
      invariant 0 <= i <= |inputs|
      invariant urls + Accepted(inputs[i..], ends, entry) == Accepted(inputs, ends, entry)
      invariant forall j :: 0 <= j < i ==> !ends(inputs[j])
    {
      if ends(inputs[i]) {
        ReadEnd(inputs, i, ends, entry, urls);
        return Some(urls), i + 1;
      }
      ReadStep(inputs, i, ends, entry, urls);
      ghost var before := urls;
      var url := entry(inputs[i]);
      if url.Some? {
        urls := urls + [url.value];
      }
      assert urls == before + EntryOf(inputs[i], entry);
      i := i + 1;
    }
    return None, i;
  }

  /** `get_urls_from_user`, reading the lines from `inputs`: the accepted URLs, or `None`
      when the lines run out before a blank line or `done`. */
  method GetUrlsFromUser(inputs: seq<string>) returns (urls: Option<seq<string>>, next: nat)
    ensures urls.Some? <==> EndAt(inputs, EndsInput).Some?
    ensures urls.Some? ==> urls.value == UrlsFromUser(inputs) && next == EndAt(inputs, EndsInput).value + 1
    ensures urls.None? ==> next == |inputs|
  {
    urls, next := ReadUntil(inputs, EndsInput, InputUrl);
  }
}
