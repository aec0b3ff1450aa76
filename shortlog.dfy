/** Reading `git shortlog -sn --all` output. Every analyzer parses it with the same
    loop: `for line in stdout.strip().split('\n')`, skip a line whose `strip()` is
    empty or has no tab, otherwise `count, author = line.strip().split('\t', 1)` with
    `int(count)`; an `int()` failure raises and fails the whole repository. */
module Shortlog {
  import opened Optional
  import opened PyStr
  import opened Counts

  /** What the two `git` subprocess calls produce: the clone exits non-zero (or
      raises), the shortlog exits non-zero (or raises), or the shortlog's stdout. */
  datatype GitRun = CloneFailed | LogFailed | Log(stdout: string)

  /** One line of output: skipped, a count `int()` rejects, or an author's count. */
  datatype Line = Skipped | Malformed | Record(author: string, count: int)

  function ParseLine(line: string): (r: Line)
    ensures r.Skipped? <==> '\t' !in Strip(line)
  {
    var t := Strip(line);
    if t == [] then Skipped
    else match SplitOnce(t, '\t')
      case None => Skipped
      case Some(p) =>
        match ParseInt(p.0)
        case None => Malformed
        case Some(n) => Record(p.1, n)
  }

  /** `stdout.strip().split('\n')` */
  function Lines(stdout: string): seq<string> {
    Split(Strip(stdout), '\n')
  }

  /** The (author, count) records of the lines, each read by `parse`, in order; `None`
      once a line is malformed (the `int()` call raises and the loop is abandoned).
      The analyzers read every line with `ParseLine`. */
  function Collect(lines: seq<string>, parse: string -> Line): (r: Option<seq<Entry>>)
    ensures r.Some? ==> |r.value| <= |lines|
  {
    if lines == [] then Some([])
    else
      match Collect(lines[..|lines| - 1], parse)
      case None => None
      case Some(rs) =>
        match parse(lines[|lines| - 1])
        case Skipped => Some(rs)
        case Malformed => None
        case Record(a, n) => Some(rs + [(a, n)])
  }

  /** The records of a shortlog's output. */
  function Records(stdout: string): Option<seq<Entry>> {
    Collect(Lines(stdout), ParseLine)
  }

  /** Parsing fails exactly when some line is malformed. */
  lemma {:induction false} CollectMalformed(lines: seq<string>, parse: string -> Line)
    ensures Collect(lines, parse).None? <==> exists i :: 0 <= i < |lines| && parse(lines[i]).Malformed?
  {
    if lines != [] {
      var init := lines[..|lines| - 1];
      CollectMalformed(init, parse);
      if Collect(init, parse).None? {
        var i :| 0 <= i < |init| && parse(init[i]).Malformed?;
        assert lines[i] == init[i];
      } else {
        assert forall j :: 0 <= j < |init| ==> lines[j] == init[j];
      }
    }
  }

  /** Every record comes from a line of the output, in order of the lines. */
  lemma {:induction false} CollectFromLines(lines: seq<string>, parse: string -> Line)
    requires Collect(lines, parse).Some?
    ensures forall k :: 0 <= k < |Collect(lines, parse).value| ==>
              exists i :: 0 <= i < |lines| && parse(lines[i]) == Record(Collect(lines, parse).value[k].0, Collect(lines, parse).value[k].1)
  {
    if lines != [] {
      var init := lines[..|lines| - 1];
      CollectFromLines(init, parse);
      var rs := Collect(init, parse).value;
      forall k | 0 <= k < |rs| ensures exists i :: 0 <= i < |lines| && parse(lines[i]) == Record(rs[k].0, rs[k].1) {
        var i :| 0 <= i < |init| && parse(init[i]) == Record(rs[k].0, rs[k].1);
        assert lines[i] == init[i];
      }
    }
  }

  /** A failing prefix fails the whole output. */
  lemma {:induction false} CollectPrefixNone(lines: seq<string>, parse: string -> Line, i: nat)
    requires i <= |lines| && Collect(lines[..i], parse).None?
    ensures Collect(lines, parse).None?
    decreases |lines| - i
  {
    if i < |lines| {
      assert lines[..i + 1][..i] == lines[..i];
      CollectPrefixNone(lines, parse, i + 1);
    } else {
      assert lines[..i] == lines;
    }
  }

  /** Output that is only whitespace, the empty output in particular, holds no records
      and is not a failure. */
  lemma EmptyShortlog(stdout: string)
    requires forall i :: 0 <= i < |stdout| ==> IsSpace(stdout[i])
    ensures Records(stdout) == Some([])
  {
    assert Strip(stdout) == [];
    assert Lines(stdout) == [""];
    assert [""][..0] == [];
    assert ParseLine("") == Skipped;
  }

  /** The loop of the Streamlit and Tk versions: `contributors[author] = count` and
      `total_commits += count` for every record, so a repeated author overwrites its
      count in the dict but is counted twice in the total. */
  method CountRecords(lines: seq<string>, parse: string -> Line) returns (r: Option<(Tally, int)>)
    ensures r.None? <==> Collect(lines, parse).None?
    ensures r.Some? ==> r.value.0 == FromEntries(Collect(lines, parse).value)
    ensures r.Some? ==> r.value.1 == Sum(Collect(lines, parse).value)
  {
    var contributors: Tally := [];
    var total := 0;
    var i := 0;
    while i < |lines|
      invariant 0 <= i <= |lines|
      invariant Collect(lines[..i], parse).Some?
      invariant contributors == FromEntries(Collect(lines[..i], parse).value)
      invariant total == Sum(Collect(lines[..i], parse).value)
    {
      assert lines[..i + 1][..i] == lines[..i];
      ghost var rs := Collect(lines[..i], parse).value;
      match parse(lines[i]) {
        case Skipped =>
        case Malformed =>
          CollectPrefixNone(lines, parse, i + 1);
          return None;
        case Record(author, count) =>
          contributors := Put(contributors, author, count);
          total := total + count;
          SumAppend(rs, [(author, count)]);
          assert (rs + [(author, count)])[..|rs|] == rs;
      }
      i := i + 1;
    }
    assert lines[..i] == lines;
    r := Some((contributors, total));
  }

  /** The loop of the list-building variant: `contributors.append((author, count))`,
      keeping every record, repeats included, in output order. */
  method ListRecords(lines: seq<string>, parse: string -> Line) returns (r: Option<seq<Entry>>)
    ensures r == Collect(lines, parse)
  {
    var contributors: seq<Entry> := [];
    var i := 0;
    while i < |lines|
      invariant 0 <= i <= |lines|
      invariant Collect(lines[..i], parse) == Some(contributors)
    {
      assert lines[..i + 1][..i] == lines[..i];
      match parse(lines[i]) {
        case Skipped =>
        case Malformed =>
          CollectPrefixNone(lines, parse, i + 1);
          return None;
        case Record(author, count) =>
          contributors := contributors + [(author, count)];
      }
      i := i + 1;
    }
    assert lines[..i] == lines;
    r := Some(contributors);
  }

  /** What parsing yields about the dict: one key per distinct author, each author's
      count taken from its last line, and `len(contributors)` the number of distinct
      authors. The running total equals the dict's sum when no author repeats. */
  lemma ShortlogTally(stdout: string)
    requires Records(stdout).Some?
    ensures UniqueKeys(FromEntries(Records(stdout).value))
    ensures KeySet(FromEntries(Records(stdout).value)) == KeySet(Records(stdout).value)
    ensures |FromEntries(Records(stdout).value)| == |KeySet(Records(stdout).value)|
    ensures forall a :: Get(FromEntries(Records(stdout).value), a) == LastCount(Records(stdout).value, a)
    ensures UniqueKeys(Records(stdout).value)
            ==> Sum(FromEntries(Records(stdout).value)) == Sum(Records(stdout).value)
  {
    var es := Records(stdout).value;
    FromEntriesSpec(es);
    if UniqueKeys(es) { FromDistinctEntries(es); }
  }

  // ----- the printing side: what `git shortlog -sn` writes -----

  /** `printf("%6d", n)`: the count right-aligned in six columns. */
  function PadCount(n: nat): (s: string)
    ensures |s| >= |ShowNat(n)|
    ensures s[|s| - |ShowNat(n)|..] == ShowNat(n)
    ensures forall i :: 0 <= i < |s| - |ShowNat(n)| ==> s[i] == ' '
  {
    var d := ShowNat(n);
    if |d| >= 6 then d else seq(6 - |d|, _ => ' ') + d
  }

  /** An author name as shortlog prints it and the parser can give back: non-empty, on
      one line, not ending in whitespace (a trailing blank would be stripped). */
  predicate Printable(a: string) {
    a != [] && '\n' !in a && !IsSpace(a[|a| - 1])
  }

  predicate PrintableRecords(es: seq<Entry>) {
    forall i :: 0 <= i < |es| ==> es[i].1 >= 0 && Printable(es[i].0)
  }

  /** `printf("%6d\t%s", count, author)` */
  function RenderLine(e: Entry): string
    requires e.1 >= 0
  {
    PadCount(e.1) + "\t" + e.0
  }

  function RenderLines(es: seq<Entry>): (ls: seq<string>)
    requires PrintableRecords(es)
    ensures |ls| == |es| && forall i :: 0 <= i < |es| ==> ls[i] == RenderLine(es[i])
  {
    seq(|es|, i requires 0 <= i < |es| => RenderLine(es[i]))
  }

  /** The whole output, one line per record, each ending in a newline. */
  function Render(es: seq<Entry>): string
    requires PrintableRecords(es)
  {
    if es == [] then "" else Join(RenderLines(es), '\n') + "\n"
  }

  /** A count and a tab in front of an author, after whitespace, strip to the count,
      the tab and the author. */
  lemma StripRecordLine(pad: string, d: string, a: string)
    requires forall i :: 0 <= i < |pad| ==> IsSpace(pad[i])
    requires d != [] && forall i :: 0 <= i < |d| ==> IsDigit(d[i])
    requires Printable(a)
    ensures Strip(pad + d + "\t" + a) == d + "\t" + a
  {
    var t := d + "\t" + a;
    assert pad + d + "\t" + a == pad + t + "";
    assert t[0] == d[0] && t[|t| - 1] == a[|a| - 1];
    StripAround(pad, t, "");
  }

  /** The first tab of such a line is the one after the count. */
  lemma SplitRecordLine(d: string, a: string)
    requires forall i :: 0 <= i < |d| ==> IsDigit(d[i])
    ensures SplitOnce(d + "\t" + a, '\t') == Some((d, a))
  {
    assert '\t' !in d by {
      forall i | 0 <= i < |d| ensures d[i] != '\t' { assert IsDigit(d[i]); }
    }
    assert d + "\t" + a == d + ['\t'] + a;
    SplitOnceFirst(d, a, '\t');
  }

  /** A line of whitespace, a count and a tab in front of an author parses back to it. */
  lemma ParseLinePadded(pad: string, n: nat, a: string)
    requires forall i :: 0 <= i < |pad| ==> IsSpace(pad[i])
    requires Printable(a)
    ensures ParseLine(pad + ShowNat(n) + "\t" + a) == Record(a, n)
  {
    var d := ShowNat(n);
    StripRecordLine(pad, d, a);
    SplitRecordLine(d, a);
    ParseIntShow("", n);
    assert "" + d == d;
  }

  /** Lines that parse one by one to the entries give the entries. */
  lemma {:induction false} CollectRecords(lines: seq<string>, parse: string -> Line, es: seq<Entry>)
    requires |lines| == |es|
    requires forall i :: 0 <= i < |lines| ==> parse(lines[i]) == Record(es[i].0, es[i].1)
    ensures Collect(lines, parse) == Some(es)
  {
    if lines != [] {
      CollectRecords(lines[..|lines| - 1], parse, es[..|es| - 1]);
      assert es == es[..|es| - 1] + [es[|es| - 1]];
    }
  }

  /** The lines shortlog prints, the first one without the padding `strip()` removes
      from the start of the output. */
  function Unpadded(es: seq<Entry>): (ls: seq<string>)
    requires PrintableRecords(es) && es != []
    ensures |ls| == |es|
  {
    [ShowNat(es[0].1) + "\t" + es[0].0] + RenderLines(es)[1..]
  }

  /** The padding in front of line `i` of `Unpadded(es)`. */
  function LinePad(es: seq<Entry>, i: nat): string
    requires PrintableRecords(es) && i < |es|
  {
    if i == 0 then "" else PadCount(es[i].1)[..|PadCount(es[i].1)| - |ShowNat(es[i].1)|]
  }

  /** Each of those lines is blanks, the count, a tab and the author. */
  lemma UnpaddedShape(es: seq<Entry>, i: nat)
    requires PrintableRecords(es) && i < |es|
    ensures Unpadded(es)[i] == LinePad(es, i) + ShowNat(es[i].1) + "\t" + es[i].0
    ensures forall k :: 0 <= k < |LinePad(es, i)| ==> LinePad(es, i)[k] == ' '
  {
    if i == 0 {
      UnpaddedFirst(es);
    } else {
      UnpaddedLater(es, i);
    }
  }

  /** The first line carries no padding. */
  lemma UnpaddedFirst(es: seq<Entry>)
    requires PrintableRecords(es) && es != []
    ensures Unpadded(es)[0] == LinePad(es, 0) + ShowNat(es[0].1) + "\t" + es[0].0
    ensures LinePad(es, 0) == ""
  {
    assert "" + ShowNat(es[0].1) == ShowNat(es[0].1);
  }

  /** A later line is the padded count, a tab and the author. */
  lemma UnpaddedLater(es: seq<Entry>, i: nat)
    requires PrintableRecords(es) && 0 < i < |es|
    ensures Unpadded(es)[i] == LinePad(es, i) + ShowNat(es[i].1) + "\t" + es[i].0
    ensures forall k :: 0 <= k < |LinePad(es, i)| ==> LinePad(es, i)[k] == ' '
  {
    var p := PadCount(es[i].1);
    assert p == LinePad(es, i) + ShowNat(es[i].1);
    assert Unpadded(es)[i] == RenderLines(es)[i];
  }

  /** A line made of blanks, a count, a tab and a one-line author is one line. */
  lemma RecordLineOneLine(pad: string, n: nat, a: string)
    requires forall k :: 0 <= k < |pad| ==> pad[k] == ' '
    requires Printable(a)
    ensures '\n' !in pad + ShowNat(n) + "\t" + a
  {
    var d := ShowNat(n);
    assert forall k :: 0 <= k < |d| ==> d[k] != '\n' by {
      forall k | 0 <= k < |d| ensures d[k] != '\n' { assert IsDigit(d[k]); }
    }
  }

  /** The rendered output is the first line's padding, then the unpadded lines joined,
      then a newline. */
  lemma RenderShape(es: seq<Entry>)
    requires PrintableRecords(es) && es != []
    ensures Render(es) == PadCount(es[0].1)[..|PadCount(es[0].1)| - |ShowNat(es[0].1)|]
                          + Join(Unpadded(es), '\n') + "\n"
  {
    var ls := RenderLines(es);
    var first := ShowNat(es[0].1) + "\t" + es[0].0;
    var p := PadCount(es[0].1);
    var pad := p[..|p| - |ShowNat(es[0].1)|];
    assert p == pad + ShowNat(es[0].1);
    assert ls[0] == pad + first;
    assert ls == [pad + first] + ls[1..];
    JoinHead(pad, first, ls[1..], '\n');
  }

  /** The unpadded lines joined begin with a digit and end with the last author's last
      character. */
  lemma JoinedEnds(es: seq<Entry>)
    requires PrintableRecords(es) && es != []
    ensures var j := Join(Unpadded(es), '\n');
            j != [] && !IsSpace(j[0]) && !IsSpace(j[|j| - 1])
  {
    var ls := Unpadded(es);
    var n := |es| - 1;
    UnpaddedShape(es, n);
    var a := es[n].0;
    assert ls[n][|ls[n]| - 1] == a[|a| - 1];
    JoinFirst(ls, '\n');
    JoinLast(ls, '\n');
    assert IsDigit(ShowNat(es[0].1)[0]);
  }

  /** Stripping and splitting the output gives the unpadded lines. */
  lemma LinesOfRender(es: seq<Entry>)
    requires PrintableRecords(es) && es != []
    ensures Lines(Render(es)) == Unpadded(es)
  {
    var ls := Unpadded(es);
    var p := PadCount(es[0].1);
    var pad := p[..|p| - |ShowNat(es[0].1)|];
    RenderShape(es);
    JoinedEnds(es);
    StripAround(pad, Join(ls, '\n'), "\n");
    forall i | 0 <= i < |ls| ensures '\n' !in ls[i] {
      UnpaddedShape(es, i);
      RecordLineOneLine(LinePad(es, i), es[i].1, es[i].0);
    }
    SplitJoin(ls, '\n');
  }

  /** The unpadded lines parse back to the records. */
  lemma CollectUnpadded(es: seq<Entry>)
    requires PrintableRecords(es) && es != []
    ensures Collect(Unpadded(es), ParseLine) == Some(es)
  {
    var ls := Unpadded(es);
    forall i | 0 <= i < |ls| ensures ParseLine(ls[i]) == Record(es[i].0, es[i].1) {
      UnpaddedShape(es, i);
      ParseLinePadded(LinePad(es, i), es[i].1, es[i].0);
    }
    CollectRecords(ls, ParseLine, es);
  }

  /** Parsing inverts printing: reading the output shortlog prints for some records
      gives back those records, in order. */
  lemma ShortlogRender(es: seq<Entry>)
    requires PrintableRecords(es)
    ensures Records(Render(es)) == Some(es)
  {
    if es == [] {
      EmptyShortlog("");
    } else {
      LinesOfRender(es);
      CollectUnpadded(es);
    }
  }

  /** A repeated author (two shortlog lines for `a`, which parse to two records): the
      dict keeps the later count while the running total adds both. */
  lemma RepeatedAuthorTotal(a: string, x: nat, y: nat)
    requires Printable(a)
    ensures FromEntries([(a, x), (a, y)]) == [(a, y)]
    ensures Sum([(a, x), (a, y)]) == x + y
  {
    var es := [(a, x), (a, y)];
    assert es[..1] == [(a, x)];
    assert [(a, x)][..0] == [];
    assert FromEntries([(a, x)]) == [(a, x)];
    assert Put([(a, x)], a, y) == [(a, y)];
    assert es[1..] == [(a, y)];
    assert Sum([(a, y)]) == y;
  }
}
