/** The handful of Python `str` operations the analyzers are built from,
    each with the semantics CPython gives it. Characters are Unicode scalar
    values; lower-casing and digit tests are restricted to ASCII. */
module PyStr {
  import opened Optional

  /** `c.isspace()`: the characters `str.strip()` and `str.split()` treat as whitespace. */
  predicate IsSpace(c: char) {
    var n := c as int;
    (9 <= n <= 13) || (28 <= n <= 32) || n == 0x85 || n == 0xA0 || n == 0x1680
    || (0x2000 <= n <= 0x200A) || n == 0x2028 || n == 0x2029 || n == 0x202F
    || n == 0x205F || n == 0x3000
  }

  predicate IsSlash(c: char) { c == '/' }

  predicate IsDigit(c: char) { '0' <= c <= '9' }

  /** Drops the longest prefix whose characters all satisfy `drop`. */
  function TrimLeft(s: string, drop: char -> bool): (r: string)
    ensures |r| <= |s| && r == s[|s| - |r|..]
    ensures r == [] || !drop(r[0])
    ensures forall i :: 0 <= i < |s| - |r| ==> drop(s[i])
    decreases |s|
  {
    if |s| > 0 && drop(s[0]) then TrimLeft(s[1..], drop) else s
  }

  /** Drops the longest suffix whose characters all satisfy `drop`. */
  function TrimRight(s: string, drop: char -> bool): (r: string)
    ensures |r| <= |s| && r == s[..|r|]
    ensures r == [] || !drop(r[|r| - 1])
    ensures forall i :: |r| <= i < |s| ==> drop(s[i])
    decreases |s|
  {
    if |s| > 0 && drop(s[|s| - 1]) then TrimRight(s[..|s| - 1], drop) else s
  }

  /** Python's `s.strip(chars)` with `drop` the membership test of `chars`. */
  function Trim(s: string, drop: char -> bool): (r: string)
    ensures r == [] || (!drop(r[0]) && !drop(r[|r| - 1]))
    ensures r == [] <==> forall i :: 0 <= i < |s| ==> drop(s[i])
    ensures forall c :: c in r ==> c in s
    ensures (forall i :: 0 <= i < |s| ==> !drop(s[i])) ==> r == s
  {
    var l := TrimLeft(s, drop);
    var r := TrimRight(l, drop);
    assert r == s[|s| - |l|..][..|r|];
    r
  }

  /** `s.strip()` */
  function Strip(s: string): string { Trim(s, IsSpace) }

  /** `s.strip('/')` */
  function StripSlashes(s: string): string { Trim(s, IsSlash) }

  /** Stripping a string of whitespace padding in front of text that begins and ends
      with a non-space character yields that text. */
  lemma {:induction false} StripPadded(pad: string, t: string)
    requires forall i :: 0 <= i < |pad| ==> IsSpace(pad[i])
    requires t != [] && !IsSpace(t[0]) && !IsSpace(t[|t| - 1])
    ensures Strip(pad + t) == t
  {
    TrimLeftPadded(pad, t, IsSpace);
  }

  lemma {:induction false} TrimLeftPadded(pad: string, t: string, drop: char -> bool)
    requires forall i :: 0 <= i < |pad| ==> drop(pad[i])
    requires t != [] && !drop(t[0])
    ensures TrimLeft(pad + t, drop) == t
    decreases |pad|
  {
    if pad == [] {
      assert pad + t == t;
    } else {
      assert (pad + t)[1..] == pad[1..] + t;
      TrimLeftPadded(pad[1..], t, drop);
    }
  }

  lemma {:induction false} TrimRightPadded(t: string, post: string, drop: char -> bool)
    requires forall i :: 0 <= i < |post| ==> drop(post[i])
    requires t != [] && !drop(t[|t| - 1])
    ensures TrimRight(t + post, drop) == t
    decreases |post|
  {
    if post == [] {
      assert t + post == t;
    } else {
      assert (t + post)[..|t + post| - 1] == t + post[..|post| - 1];
      TrimRightPadded(t, post[..|post| - 1], drop);
    }
  }

  /** Stripping text that begins and ends with a non-space character, padded by
      whitespace on both sides, yields that text. */
  lemma StripAround(pre: string, t: string, post: string)
    requires forall i :: 0 <= i < |pre| ==> IsSpace(pre[i])
    requires forall i :: 0 <= i < |post| ==> IsSpace(post[i])
    requires t != [] && !IsSpace(t[0]) && !IsSpace(t[|t| - 1])
    ensures Strip(pre + t + post) == t
  {
    assert pre + t + post == pre + (t + post);
    TrimLeftPadded(pre, t + post, IsSpace);
    TrimRightPadded(t, post, IsSpace);
  }

  predicate StartsWith(s: string, w: string) {
    |w| <= |s| && s[..|w|] == w
  }

  /** A prefix test, one character at a time. */
  lemma StartsWithCons(s: string, w: string)
    requires w != []
    ensures StartsWith(s, w) == (s != [] && s[0] == w[0] && StartsWith(s[1..], w[1..]))
  {
    if s != [] && |w| <= |s| {
      assert s[..|w|] == [s[0]] + s[1..][..|w| - 1];
      assert w == [w[0]] + w[1..];
    }
  }

  /** Python's `w in s` for two strings. */
  predicate Contains(s: string, w: string)
    decreases |s|
  {
    StartsWith(s, w) || (|s| > 0 && Contains(s[1..], w))
  }

  /** An occurrence at any position is found by `Contains`. */
  lemma {:induction false} ContainsAt(s: string, w: string, i: nat)
    requires i <= |s| && StartsWith(s[i..], w)
    ensures Contains(s, w)
    decreases i
  {
    if i > 0 {
      assert s[1..][i - 1..] == s[i..];
      ContainsAt(s[1..], w, i - 1);
    }
  }

  /** A string containing `u + w + v` contains `w`. */
  lemma {:induction false} ContainsInfix(s: string, u: string, w: string, v: string)
    requires Contains(s, u + w + v)
    ensures Contains(s, w)
    decreases |s|
  {
    if StartsWith(s, u + w + v) {
      assert s[|u|..][..|w|] == (u + w + v)[|u|..|u| + |w|] == w;
      ContainsAt(s, w, |u|);
    } else {
      ContainsInfix(s[1..], u, w, v);
    }
  }

  /** Python's `s.replace(pat, rep)`: EVERY non-overlapping occurrence, scanning from
      the left, is replaced (not only a leading one). */
  function Replace(s: string, pat: string, rep: string): (r: string)
    requires |pat| > 0
    ensures !Contains(s, pat) ==> r == s
    decreases |s|
  {
    if |s| == 0 then ""
    else if StartsWith(s, pat) then rep + Replace(s[|pat|..], pat, rep)
    else [s[0]] + Replace(s[1..], pat, rep)
  }

  /** A leading occurrence is replaced and scanning resumes after it. */
  lemma ReplaceLeading(pat: string, x: string, rep: string)
    requires |pat| > 0
    ensures Replace(pat + x, pat, rep) == rep + Replace(x, pat, rep)
  {
    assert (pat + x)[..|pat|] == pat;
    assert (pat + x)[|pat|..] == x;
  }

  /** The scan is leftmost-first: when `a` is followed by the earliest occurrence of
      `pat` (none starts inside `a`, not even one running into `pat`), `a` is kept as
      it is, the occurrence becomes `rep`, and the scan goes on after it. With the
      pattern-free case above, this settles `Replace` on every string. */
  lemma {:induction false} ReplaceAtFirst(a: string, pat: string, x: string, rep: string)
    requires |pat| > 0 && !Contains(a + pat[..|pat| - 1], pat)
    ensures Replace(a + pat + x, pat, rep) == a + rep + Replace(x, pat, rep)
    decreases |a|, 1
  {
    if a == [] {
      assert a + pat + x == pat + x;
      ReplaceLeading(pat, x, rep);
    } else {
      ReplaceBeforeFirst(a, pat, x, rep);
    }
  }

  /** The step of `ReplaceAtFirst` for a non-empty `a`: its first character is kept. */
  lemma {:induction false} ReplaceBeforeFirst(a: string, pat: string, x: string, rep: string)
    requires |pat| > 0 && a != [] && !Contains(a + pat[..|pat| - 1], pat)
    ensures Replace(a + pat + x, pat, rep) == a + rep + Replace(x, pat, rep)
    decreases |a|, 0
  {
    NotYet(a, pat, x, rep);
    ReplaceAtFirst(a[1..], pat, x, rep);
    var r := Replace(x, pat, rep);
    assert [a[0]] + (a[1..] + rep + r) == a + rep + r;
  }

  /** Before the earliest occurrence the scan moves on one character at a time. */
  lemma NotYet(a: string, pat: string, x: string, rep: string)
    requires |pat| > 0 && a != [] && !Contains(a + pat[..|pat| - 1], pat)
    ensures Replace(a + pat + x, pat, rep) == [a[0]] + Replace(a[1..] + pat + x, pat, rep)
    ensures !Contains(a[1..] + pat[..|pat| - 1], pat)
  {
    var s := a + pat + x;
    var early := a + pat[..|pat| - 1];
    assert s[..|pat|] == early[..|pat|];
    assert early[1..] == a[1..] + pat[..|pat| - 1];
    assert s[1..] == a[1..] + pat + x;
    ReplaceSkip(s, pat, rep);
  }

  lemma ReplaceSkip(s: string, pat: string, rep: string)
    requires |pat| > 0 && s != [] && !StartsWith(s, pat)
    ensures Replace(s, pat, rep) == [s[0]] + Replace(s[1..], pat, rep)
  {
  }

  /** Python's `s.split(sep)` for a one-character separator. */
  function Split(s: string, sep: char): (parts: seq<string>)
    ensures |parts| >= 1
    ensures forall i :: 0 <= i < |parts| ==> sep !in parts[i]
    decreases |s|
  {
    if |s| == 0 then [""]
    else
      var rest := Split(s[1..], sep);
      if s[0] == sep then [""] + rest
      else [[s[0]] + rest[0]] + rest[1..]
  }

  /** Python's `sep.join(parts)`. */
  function Join(parts: seq<string>, sep: char): string
    requires |parts| >= 1
  {
    if |parts| == 1 then parts[0] else parts[0] + [sep] + Join(parts[1..], sep)
  }

  /** Text in front of the first piece stays in front of the join. */
  lemma JoinHead(x: string, y: string, rest: seq<string>, sep: char)
    ensures Join([x + y] + rest, sep) == x + Join([y] + rest, sep)
  {
    if rest != [] {
      assert ([x + y] + rest)[1..] == rest == ([y] + rest)[1..];
    }
  }

  /** A join starts with its first piece. */
  lemma JoinFirst(parts: seq<string>, sep: char)
    requires |parts| >= 1 && parts[0] != []
    ensures Join(parts, sep) != [] && Join(parts, sep)[0] == parts[0][0]
  {
  }

  /** A join ends with its last piece. */
  lemma {:induction false} JoinLast(parts: seq<string>, sep: char)
    requires |parts| >= 1 && parts[|parts| - 1] != []
    ensures Join(parts, sep) != []
    ensures Join(parts, sep)[|Join(parts, sep)| - 1] == parts[|parts| - 1][|parts[|parts| - 1]| - 1]
    decreases |parts|
  {
    if |parts| > 1 {
      JoinLast(parts[1..], sep);
    }
  }

  /** Joining the pieces of a split gives back the string. */
  lemma {:induction false} JoinSplit(s: string, sep: char)
    ensures Join(Split(s, sep), sep) == s
    decreases |s|
  {
    if |s| > 0 {
      var rest := Split(s[1..], sep);
      JoinSplit(s[1..], sep);
      if s[0] == sep {
        assert Split(s, sep)[1..] == rest;
      } else if |rest| == 1 {
        assert Split(s, sep) == [[s[0]] + rest[0]];
      } else {
        var parts := Split(s, sep);
        assert parts[1..] == rest[1..];
        assert Join(rest, sep) == rest[0] + [sep] + Join(rest[1..], sep);
      }
    }
  }

  /** Splitting a join of separator-free pieces gives back the pieces. */
  lemma {:induction false} SplitJoin(parts: seq<string>, sep: char)
    requires |parts| >= 1
    requires forall i :: 0 <= i < |parts| ==> sep !in parts[i]
    ensures Split(Join(parts, sep), sep) == parts
    decreases |parts|
  {
    if |parts| == 1 {
      SplitFree(parts[0], sep);
    } else {
      SplitJoin(parts[1..], sep);
      SplitAround(parts[0], Join(parts[1..], sep), sep);
      SplitFree(parts[0], sep);
      assert [parts[0]] + parts[1..] == parts;
    }
  }

  lemma {:induction false} SplitFree(s: string, sep: char)
    requires sep !in s
    ensures Split(s, sep) == [s]
    decreases |s|
  {
    if |s| > 0 {
      SplitFree(s[1..], sep);
      assert [s[0]] + s[1..] == s;
    }
  }

  /** A separator between `x` and `y` separates their pieces. */
  lemma {:induction false} SplitAround(x: string, y: string, sep: char)
    ensures Split(x + [sep] + y, sep) == Split(x, sep) + Split(y, sep)
    decreases |x|
  {
    if |x| == 0 {
      assert x + [sep] + y == [sep] + y;
      assert ([sep] + y)[1..] == y;
    } else {
      assert (x + [sep] + y)[1..] == x[1..] + [sep] + y;
      SplitAround(x[1..], y, sep);
    }
  }

  /** Python's `s.split(sep, 1)`: `None` when `sep` does not occur (a one-element list),
      otherwise the text before the first `sep` and the text after it. */
  function SplitOnce(s: string, sep: char): (r: Option<(string, string)>)
    ensures r.None? <==> sep !in s
    ensures r.Some? ==> r.value.0 + [sep] + r.value.1 == s && sep !in r.value.0
    decreases |s|
  {
    if |s| == 0 then None
    else if s[0] == sep then Some(([], s[1..]))
    else match SplitOnce(s[1..], sep)
      case None => None
      case Some(p) => Some(([s[0]] + p.0, p.1))
  }

  /** The split happens at the first separator, whatever follows it. */
  lemma {:induction false} SplitOnceFirst(a: string, b: string, sep: char)
    requires sep !in a
    ensures SplitOnce(a + [sep] + b, sep) == Some((a, b))
    decreases |a|
  {
    if |a| == 0 {
      assert a + [sep] + b == [sep] + b;
    } else {
      assert (a + [sep] + b)[1..] == a[1..] + [sep] + b;
      SplitOnceFirst(a[1..], b, sep);
      assert [a[0]] + a[1..] == a;
    }
  }

  /** Python's `s.split(sep)[-1]`. */
  function LastSegment(s: string, sep: char): string {
    var parts := Split(s, sep);
    parts[|parts| - 1]
  }

  /** The last segment of a separator-free string is the whole string. */
  lemma LastSegmentWhole(s: string, sep: char)
    requires sep !in s
    ensures LastSegment(s, sep) == s
  {
    SplitFree(s, sep);
  }

  /** The last segment is what follows the last separator. */
  lemma LastSegmentAfter(x: string, y: string, sep: char)
    requires sep !in y
    ensures LastSegment(x + [sep] + y, sep) == y
  {
    SplitAround(x, y, sep);
    SplitFree(y, sep);
  }

  function LowerChar(c: char): char {
    if 'A' <= c <= 'Z' then (c as int + 32) as char else c
  }

  /** `s.lower()` restricted to ASCII letters. */
  function Lower(s: string): string {
    seq(|s|, i requires 0 <= i < |s| => LowerChar(s[i]))
  }

  /** The digit string accepted by `int()` after the sign: decimal digits with single
      underscores allowed between two digits. */
  predicate IsNumeral(t: string) {
    && |t| > 0 && IsDigit(t[0]) && IsDigit(t[|t| - 1])
    && (forall i :: 0 <= i < |t| ==> IsDigit(t[i]) || t[i] == '_')
    && (forall i :: 0 <= i < |t| - 1 ==> IsDigit(t[i]) || IsDigit(t[i + 1]))
  }

  function NumeralValue(t: string): nat
    requires forall i :: 0 <= i < |t| ==> IsDigit(t[i]) || t[i] == '_'
  {
    if |t| == 0 then 0
    else if t[|t| - 1] == '_' then NumeralValue(t[..|t| - 1])
    else
      assert IsDigit(t[|t| - 1]);
      10 * NumeralValue(t[..|t| - 1]) + (t[|t| - 1] as int - '0' as int)
  }

  /** The digits of a numeral with its underscores left out. */
  function Digits(t: string): (d: string)
    ensures forall i :: 0 <= i < |d| ==> d[i] != '_' && d[i] in t
  {
    if |t| == 0 then []
    else if t[|t| - 1] == '_' then Digits(t[..|t| - 1])
    else Digits(t[..|t| - 1]) + [t[|t| - 1]]
  }

  /** Underscores in a numeral only group its digits: the value is that of the same
      digits written without them, and at least one digit remains. */
  lemma {:induction false} NumeralDigits(t: string)
    requires forall i :: 0 <= i < |t| ==> IsDigit(t[i]) || t[i] == '_'
    ensures forall i :: 0 <= i < |Digits(t)| ==> IsDigit(Digits(t)[i])
    ensures NumeralValue(t) == NumeralValue(Digits(t))
    ensures IsNumeral(t) ==> Digits(t) != []
  {
    if |t| > 0 {
      var u := t[..|t| - 1];
      NumeralDigits(u);
      if t[|t| - 1] != '_' {
        var d := Digits(u) + [t[|t| - 1]];
        assert d[..|d| - 1] == Digits(u);
      }
    }
  }

  /** Python's `int(s)` on a string (base 10): surrounding whitespace is ignored, one
      optional sign, then a numeral; anything else raises, modelled as `None`. */
  function ParseInt(s: string): (r: Option<int>)
    ensures r.Some? ==> Strip(s) != []
  {
    var t := Strip(s);
    if |t| > 0 && (t[0] == '+' || t[0] == '-') then
      if IsNumeral(t[1..]) then
        var v: int := NumeralValue(t[1..]);
        Some(if t[0] == '-' then -v else v)
      else None
    else if IsNumeral(t) then Some(NumeralValue(t))
    else None
  }

  function DigitChar(d: nat): char
    requires d < 10
  {
    ('0' as int + d) as char
  }

  /** The decimal rendering of a count, as `git shortlog -s` prints it. */
  function ShowNat(n: nat): (s: string)
    ensures s != [] && forall i :: 0 <= i < |s| ==> IsDigit(s[i])
  {
    if n < 10 then [DigitChar(n)] else ShowNat(n / 10) + [DigitChar(n % 10)]
  }

  lemma {:induction false} NumeralValueShow(n: nat)
    ensures NumeralValue(ShowNat(n)) == n
  {
    if n >= 10 {
      var s := ShowNat(n);
      assert s[..|s| - 1] == ShowNat(n / 10);
      NumeralValueShow(n / 10);
    }
  }

  /** `int()` reads back a count written in decimal, whatever whitespace pads it. */
  lemma ParseIntShow(pad: string, n: nat)
    requires forall i :: 0 <= i < |pad| ==> IsSpace(pad[i])
    ensures ParseInt(pad + ShowNat(n)) == Some(n)
  {
    var s := ShowNat(n);
    assert !IsSpace(s[0]) && !IsSpace(s[|s| - 1]);
    StripPadded(pad, s);
    NumeralValueShow(n);
    ParseIntDigits(pad + s, s);
  }

  lemma ParseIntDigits(s: string, t: string)
    requires Strip(s) == t
    requires t != [] && forall i :: 0 <= i < |t| ==> IsDigit(t[i])
    ensures ParseInt(s) == Some(NumeralValue(t))
  {
    DigitsAreNumeral(t);
    ParseIntNumeral(s, t);
  }

  lemma DigitsAreNumeral(t: string)
    requires t != [] && forall i :: 0 <= i < |t| ==> IsDigit(t[i])
    ensures IsNumeral(t)
  {
  }

  lemma ParseIntNumeral(s: string, t: string)
    requires Strip(s) == t && IsNumeral(t)
    ensures ParseInt(s) == Some(NumeralValue(t))
  {
  }

  /** `int()` of a stripped numeral is the decimal value of its digits alone. */
  lemma ParseIntUnderscored(s: string, t: string)
    requires Strip(s) == t && IsNumeral(t)
    ensures Digits(t) != [] && forall i :: 0 <= i < |Digits(t)| ==> IsDigit(Digits(t)[i])
    ensures ParseInt(s) == Some(NumeralValue(Digits(t)))
  {
    NumeralDigits(t);
    ParseIntNumeral(s, t);
  }
}
