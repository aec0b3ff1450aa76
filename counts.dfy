/** Author -> commit-count mappings as the analyzers hold them: a Python dict or
    `collections.Counter`, whose iteration order is insertion order. A mapping is a
    sequence of (author, count) pairs; every mapping the analyzers build has unique
    authors. */
module Counts {
  type Entry = (string, int)
  type Tally = seq<Entry>

  predicate UniqueKeys(t: Tally) {
    forall i, j :: 0 <= i < j < |t| ==> t[i].0 != t[j].0
  }

  /** The set of authors, `set(d.keys())`. */
  function KeySet(t: Tally): set<string> {
    if t == [] then {} else {t[0].0} + KeySet(t[1..])
  }

  lemma {:induction false} KeySetIndex(t: Tally, a: string)
    ensures a in KeySet(t) <==> exists i :: 0 <= i < |t| && t[i].0 == a
  {
    if t != [] {
      KeySetIndex(t[1..], a);
      if a in KeySet(t[1..]) {
        var i :| 0 <= i < |t| - 1 && t[1..][i].0 == a;
        assert t[i + 1].0 == a;
      }
      if exists i :: 0 <= i < |t| && t[i].0 == a {
        var i :| 0 <= i < |t| && t[i].0 == a;
        if i > 0 { assert t[1..][i - 1].0 == a; }
      }
    }
  }

  lemma {:induction false} KeySetAppend(t: Tally, u: Tally)
    ensures KeySet(t + u) == KeySet(t) + KeySet(u)
  {
    if t != [] {
      assert (t + u)[1..] == t[1..] + u;
      KeySetAppend(t[1..], u);
    } else {
      assert t + u == u;
    }
  }

  /** With unique authors there are as many authors as entries: `len(d)`. */
  lemma {:induction false} UniqueKeysSize(t: Tally)
    requires UniqueKeys(t)
    ensures |KeySet(t)| == |t|
  {
    if t != [] {
      UniqueKeysSize(t[1..]);
      KeySetIndex(t[1..], t[0].0);
    }
  }

  /** `d.get(a, 0)`, also `Counter.__getitem__`: the count of the (first) entry for `a`. */
  function Get(t: Tally, a: string): int {
    if t == [] then 0 else if t[0].0 == a then t[0].1 else Get(t[1..], a)
  }

  lemma {:induction false} GetAt(t: Tally, i: nat)
    requires UniqueKeys(t) && i < |t|
    ensures Get(t, t[i].0) == t[i].1
  {
    if i > 0 { GetAt(t[1..], i - 1); }
  }

  lemma {:induction false} GetAbsent(t: Tally, a: string)
    requires a !in KeySet(t)
    ensures Get(t, a) == 0
  {
    if t != [] { GetAbsent(t[1..], a); }
  }

  /** `d[a] = v`: an existing author keeps its position and takes the new count;
      a new author is appended. */
  function Put(t: Tally, a: string, v: int): (r: Tally)
    ensures |r| == if a in KeySet(t) then |t| else |t| + 1
    ensures KeySet(r) == KeySet(t) + {a}
    ensures forall b :: Get(r, b) == if b == a then v else Get(t, b)
    ensures forall i :: 0 <= i < |t| ==> r[i].0 == t[i].0
    ensures forall i :: 0 <= i < |t| && t[i].0 != a ==> r[i] == t[i]
    ensures a !in KeySet(t) ==> r == t + [(a, v)]
    ensures UniqueKeys(t) ==> UniqueKeys(r)
  {
    if t == [] then [(a, v)]
    else if t[0].0 == a then
      var r := [(a, v)] + t[1..];
      assert r[1..] == t[1..];
      r
    else
      var rest := Put(t[1..], a, v);
      var r := [t[0]] + rest;
      assert r[1..] == rest;
      r
  }

  /** `c[a] += v` on a Counter (or on a dict whose missing keys read as 0). */
  function Add(t: Tally, a: string, v: int): Tally {
    Put(t, a, Get(t, a) + v)
  }

  /** `sum(d.values())` */
  function Sum(t: Tally): int {
    if t == [] then 0 else t[0].1 + Sum(t[1..])
  }

  lemma {:induction false} SumAppend(t: Tally, u: Tally)
    ensures Sum(t + u) == Sum(t) + Sum(u)
  {
    if t == [] {
      assert t + u == u;
    } else {
      assert (t + u)[1..] == t[1..] + u;
      SumAppend(t[1..], u);
    }
  }

  /** Overwriting one author's count changes the total by the difference. */
  lemma {:induction false} SumPut(t: Tally, a: string, v: int)
    requires UniqueKeys(t)
    ensures Sum(Put(t, a, v)) == Sum(t) - Get(t, a) + v
  {
    if t != [] && t[0].0 != a {
      SumPut(t[1..], a, v);
    } else if t != [] {
      GetAbsentTail(t);
    }
  }

  lemma GetAbsentTail(t: Tally)
    requires UniqueKeys(t) && t != []
    ensures t[0].0 !in KeySet(t[1..])
  {
    KeySetIndex(t[1..], t[0].0);
  }

  /** `Counter.__iadd__` one author at a time: the total grows by `v`. */
  lemma SumAdd(t: Tally, a: string, v: int)
    requires UniqueKeys(t)
    ensures Sum(Add(t, a, v)) == Sum(t) + v
  {
    var w := Get(t, a) + v;
    SumPut(t, a, w);
    assert Add(t, a, v) == Put(t, a, w);
  }

  /** `{a: c for each (c, a) in entries}` built by `d[a] = c` in order: later entries for
      the same author overwrite earlier ones. */
  function FromEntries(es: seq<Entry>): Tally {
    if es == [] then [] else
      var e := es[|es| - 1];
      Put(FromEntries(es[..|es| - 1]), e.0, e.1)
  }

  /** The count the last entry for `a` carries (0 when there is none). */
  function LastCount(es: seq<Entry>, a: string): int {
    if es == [] then 0
    else if es[|es| - 1].0 == a then es[|es| - 1].1
    else LastCount(es[..|es| - 1], a)
  }

  /** The dict built from parsed lines has one key per distinct author, each with the
      count of that author's last line. */
  lemma {:induction false} FromEntriesSpec(es: seq<Entry>)
    ensures UniqueKeys(FromEntries(es))
    ensures KeySet(FromEntries(es)) == KeySet(es)
    ensures |FromEntries(es)| == |KeySet(es)|
    ensures forall a :: Get(FromEntries(es), a) == LastCount(es, a)
  {
    FromEntriesKeys(es);
    forall a ensures Get(FromEntries(es), a) == LastCount(es, a) {
      FromEntriesGet(es, a);
    }
    UniqueKeysSize(FromEntries(es));
  }

  /** The dict's authors are distinct and are the entries' authors. */
  lemma {:induction false} FromEntriesKeys(es: seq<Entry>)
    ensures UniqueKeys(FromEntries(es))
    ensures KeySet(FromEntries(es)) == KeySet(es)
  {
    if es != [] {
      var init := es[..|es| - 1];
      var e := es[|es| - 1];
      FromEntriesKeys(init);
      assert FromEntries(es) == Put(FromEntries(init), e.0, e.1);
      assert es == init + [e];
      KeySetAppend(init, [e]);
      assert KeySet([e]) == {e.0};
    }
  }

  /** The dict holds each author's last count. */
  lemma {:induction false} FromEntriesGet(es: seq<Entry>, a: string)
    ensures Get(FromEntries(es), a) == LastCount(es, a)
  {
    if es != [] {
      var init := es[..|es| - 1];
      var e := es[|es| - 1];
      FromEntriesGet(init, a);
      assert FromEntries(es) == Put(FromEntries(init), e.0, e.1);
    }
  }

  /** Entries with distinct authors are their own dict, in the same order. */
  lemma {:induction false} FromDistinctEntries(es: seq<Entry>)
    requires UniqueKeys(es)
    ensures FromEntries(es) == es
  {
    if es != [] {
      var init := es[..|es| - 1];
      FromDistinctEntries(init);
      KeySetIndex(init, es[|es| - 1].0);
      assert es == init + [es[|es| - 1]];
    }
  }

  /** `for a, c in t.items(): acc[a] += c` */
  function Merge(acc: Tally, t: Tally): Tally {
    if t == [] then acc else
      var e := t[|t| - 1];
      Add(Merge(acc, t[..|t| - 1]), e.0, e.1)
  }

  /** Per author, the sum of the counts `t` holds for it. */
  function CountOf(t: Tally, a: string): int {
    if t == [] then 0
    else (if t[|t| - 1].0 == a then t[|t| - 1].1 else 0) + CountOf(t[..|t| - 1], a)
  }

  /** In a mapping with unique authors the per-author sum is the author's count. */
  lemma {:induction false} CountOfUnique(t: Tally, a: string)
    requires UniqueKeys(t)
    ensures CountOf(t, a) == Get(t, a)
  {
    if t != [] {
      var init := t[..|t| - 1];
      var e := t[|t| - 1];
      assert UniqueKeys(init);
      CountOfUnique(init, a);
      assert t == init + [e];
      assert forall i :: 0 <= i < |init| ==> init[i].0 != e.0 by {
        forall i | 0 <= i < |init| ensures init[i].0 != e.0 { assert init[i] == t[i]; }
      }
      KeySetIndex(init, e.0);
      GetAppend(init, e, a);
      if a !in KeySet(init) { GetAbsent(init, a); }
    }
  }

  lemma GetAppend(t: Tally, e: Entry, a: string)
    ensures Get(t + [e], a) == if a in KeySet(t) then Get(t, a) else if e.0 == a then e.1 else 0
  {
    if t == [] {
    } else {
      assert (t + [e])[1..] == t[1..] + [e];
      GetAppend(t[1..], e, a);
    }
  }

  /** Merging adds counts author by author, keeps `acc`'s authors in place and
      appends new ones, and adds the totals. */
  lemma {:induction false} MergeSpec(acc: Tally, t: Tally)
    requires UniqueKeys(acc)
    ensures UniqueKeys(Merge(acc, t))
    ensures KeySet(Merge(acc, t)) == KeySet(acc) + KeySet(t)
    ensures forall a :: Get(Merge(acc, t), a) == Get(acc, a) + CountOf(t, a)
    ensures Sum(Merge(acc, t)) == Sum(acc) + Sum(t)
    ensures |Merge(acc, t)| >= |acc|
    ensures forall i :: 0 <= i < |acc| ==> Merge(acc, t)[i].0 == acc[i].0
  {
    if t != [] {
      var init := t[..|t| - 1];
      var e := t[|t| - 1];
      var m := Merge(acc, init);
      MergeSpec(acc, init);
      assert Merge(acc, t) == Add(m, e.0, e.1);
      assert t == init + [e];
      KeySetAppend(init, [e]);
      assert KeySet([e]) == {e.0};
      SumAppend(init, [e]);
      assert Sum([e]) == e.1;
      SumAdd(m, e.0, e.1);
      forall a ensures Get(Merge(acc, t), a) == Get(acc, a) + CountOf(t, a) {
        assert CountOf(t, a) == (if e.0 == a then e.1 else 0) + CountOf(init, a);
      }
    }
  }

  /** Folding a list of per-repository mappings into one Counter, in list order. */
  function MergeAll(ts: seq<Tally>): Tally {
    if ts == [] then [] else Merge(MergeAll(ts[..|ts| - 1]), ts[|ts| - 1])
  }

  /** The authors of all mappings, `set(a for t in ts for a in t)`. */
  function UnionKeys(ts: seq<Tally>): set<string> {
    if ts == [] then {} else UnionKeys(ts[..|ts| - 1]) + KeySet(ts[|ts| - 1])
  }

  /** Per author, the sum over all mappings of the author's count. */
  function SumOver(ts: seq<Tally>, a: string): int {
    if ts == [] then 0 else SumOver(ts[..|ts| - 1], a) + CountOf(ts[|ts| - 1], a)
  }

  /** Per mapping totals added up: `sum(sum(t.values()) for t in ts)`. */
  function TotalOver(ts: seq<Tally>): int {
    if ts == [] then 0 else TotalOver(ts[..|ts| - 1]) + Sum(ts[|ts| - 1])
  }

  /** The aggregate: each author's count is the sum of its per-repository counts, its
      keys are the union of the repositories' keys (so `len` of it is the number of
      unique contributors), and its total is the sum of the repository totals. */
  lemma {:induction false} MergeAllSpec(ts: seq<Tally>)
    ensures UniqueKeys(MergeAll(ts))
    ensures KeySet(MergeAll(ts)) == UnionKeys(ts)
    ensures |MergeAll(ts)| == |UnionKeys(ts)|
    ensures forall a :: Get(MergeAll(ts), a) == SumOver(ts, a)
    ensures Sum(MergeAll(ts)) == TotalOver(ts)
  {
    if ts != [] {
      MergeAllSpec(ts[..|ts| - 1]);
      MergeSpec(MergeAll(ts[..|ts| - 1]), ts[|ts| - 1]);
    }
    UniqueKeysSize(MergeAll(ts));
  }

  lemma {:induction false} SumOverAppend(xs: seq<Tally>, ys: seq<Tally>, a: string)
    ensures SumOver(xs + ys, a) == SumOver(xs, a) + SumOver(ys, a)
    decreases |ys|
  {
    if ys == [] {
      assert xs + ys == xs;
    } else {
      assert (xs + ys)[..|xs + ys| - 1] == xs + ys[..|ys| - 1];
      SumOverAppend(xs, ys[..|ys| - 1], a);
    }
  }

  lemma {:induction false} UnionKeysAppend(xs: seq<Tally>, ys: seq<Tally>)
    ensures UnionKeys(xs + ys) == UnionKeys(xs) + UnionKeys(ys)
    decreases |ys|
  {
    if ys == [] {
      assert xs + ys == xs;
    } else {
      assert (xs + ys)[..|xs + ys| - 1] == xs + ys[..|ys| - 1];
      UnionKeysAppend(xs, ys[..|ys| - 1]);
    }
  }

  /** The mapping a Tally denotes, forgetting insertion order. */
  function AsMap(t: Tally): map<string, int> {
    map a | a in KeySet(t) :: Get(t, a)
  }

  /** The merged mapping sends each author of some repository to its summed count. */
  lemma MergeAllMap(ts: seq<Tally>)
    ensures AsMap(MergeAll(ts)) == map a | a in UnionKeys(ts) :: SumOver(ts, a)
  {
    MergeAllSpec(ts);
  }

  /** The last mapping of `xs` sits somewhere in any reordering `ys`; taking it out of
      both leaves two reorderings of each other. */
  lemma Unplug(xs: seq<Tally>, ys: seq<Tally>) returns (i: nat)
    requires xs != [] && multiset(xs) == multiset(ys)
    ensures i < |ys| && ys[i] == xs[|xs| - 1]
    ensures ys == ys[..i] + [ys[i]] + ys[i + 1..]
    ensures multiset(xs[..|xs| - 1]) == multiset(ys[..i] + ys[i + 1..])
  {
    var t := xs[|xs| - 1];
    assert xs == xs[..|xs| - 1] + [t];
    assert t in multiset(ys);
    i :| 0 <= i < |ys| && ys[i] == t;
    var rest := ys[..i] + ys[i + 1..];
    assert ys == ys[..i] + [t] + ys[i + 1..];
    assert multiset(ys) == multiset(ys[..i]) + multiset{t} + multiset(ys[i + 1..]);
    assert multiset(rest) == multiset(ys[..i]) + multiset(ys[i + 1..]);
    assert multiset(xs) == multiset(xs[..|xs| - 1]) + multiset{t};
    assert multiset(xs[..|xs| - 1]) == multiset(xs) - multiset{t};
    assert multiset(rest) == multiset(ys) - multiset{t};
  }

  /** An author's summed count does not depend on the order of the mappings. */
  lemma {:induction false} SumOverPermutation(xs: seq<Tally>, ys: seq<Tally>, a: string)
    requires multiset(xs) == multiset(ys)
    ensures SumOver(xs, a) == SumOver(ys, a)
    decreases |xs|
  {
    if xs == [] {
      assert |ys| == |multiset(ys)| == 0;
    } else {
      var i := Unplug(xs, ys);
      var rest := ys[..i] + ys[i + 1..];
      SumOverPermutation(xs[..|xs| - 1], rest, a);
      SumOverAppend(ys[..i] + [ys[i]], ys[i + 1..], a);
      SumOverAppend(ys[..i], [ys[i]], a);
      SumOverAppend(ys[..i], ys[i + 1..], a);
      assert [ys[i]][..0] == [];
    }
  }

  /** The set of authors does not depend on the order of the mappings. */
  lemma {:induction false} UnionKeysPermutation(xs: seq<Tally>, ys: seq<Tally>)
    requires multiset(xs) == multiset(ys)
    ensures UnionKeys(xs) == UnionKeys(ys)
    decreases |xs|
  {
    if xs == [] {
      assert |ys| == |multiset(ys)| == 0;
    } else {
      var i := Unplug(xs, ys);
      var rest := ys[..i] + ys[i + 1..];
      UnionKeysPermutation(xs[..|xs| - 1], rest);
      UnionKeysAppend(ys[..i] + [ys[i]], ys[i + 1..]);
      UnionKeysAppend(ys[..i], [ys[i]]);
      UnionKeysAppend(ys[..i], ys[i + 1..]);
      assert [ys[i]][..0] == [];
    }
  }

  /** Folding is order-independent: any reordering of the per-repository mappings
      merges into the same mapping (keys and counts); only the insertion order of
      the authors differs. */
  lemma MergeAllPermutation(xs: seq<Tally>, ys: seq<Tally>)
    requires multiset(xs) == multiset(ys)
    ensures AsMap(MergeAll(xs)) == AsMap(MergeAll(ys))
  {
    MergeAllMap(xs);
    MergeAllMap(ys);
    UnionKeysPermutation(xs, ys);
    forall a ensures SumOver(xs, a) == SumOver(ys, a) {
      SumOverPermutation(xs, ys, a);
    }
  }

  /** Every count is positive, as `git shortlog -s` prints them. */
  predicate Positive(t: Tally) {
    forall i :: 0 <= i < |t| ==> t[i].1 > 0
  }

  lemma {:induction false} GetPositive(t: Tally, a: string)
    requires Positive(t)
    ensures Get(t, a) >= 0
  {
    if t != [] {
      assert Positive(t[1..]);
      GetPositive(t[1..], a);
    }
  }

  /** Storing a positive count keeps a dict with unique authors positive. */
  lemma PutPositive(t: Tally, a: string, v: int)
    requires UniqueKeys(t) && Positive(t) && v > 0
    ensures Positive(Put(t, a, v))
  {
    var r := Put(t, a, v);
    forall i | 0 <= i < |r| ensures r[i].1 > 0 {
      if i < |t| && t[i].0 == a {
        GetAt(r, i);
      }
    }
  }

  /** Positive counts give a positive dict whose total is at most the entries' total:
      an overwritten count is dropped from the dict. */
  lemma {:induction false} FromEntriesPositive(es: seq<Entry>)
    requires Positive(es)
    ensures Positive(FromEntries(es))
    ensures Sum(FromEntries(es)) <= Sum(es)
  {
    if es != [] {
      var init := es[..|es| - 1];
      var e := es[|es| - 1];
      assert Positive(init);
      FromEntriesPositive(init);
      FromEntriesKeys(init);
      var t := FromEntries(init);
      assert FromEntries(es) == Put(t, e.0, e.1);
      PutPositive(t, e.0, e.1);
      SumPut(t, e.0, e.1);
      GetPositive(t, e.0);
      assert es == init + [e];
      SumAppend(init, [e]);
      assert Sum([e]) == e.1;
    }
  }

  /** With positive counts an author's summed count lies between 0 and the total, and
      is positive for every author of the mapping. */
  lemma {:induction false} CountOfBounds(t: Tally, a: string)
    requires Positive(t)
    ensures 0 <= CountOf(t, a) <= Sum(t)
    ensures a in KeySet(t) ==> CountOf(t, a) > 0
  {
    if t != [] {
      var init := t[..|t| - 1];
      var e := t[|t| - 1];
      assert Positive(init);
      CountOfBounds(init, a);
      assert t == init + [e];
      SumAppend(init, [e]);
      assert Sum([e]) == e.1;
      KeySetAppend(init, [e]);
      assert KeySet([e]) == {e.0};
    }
  }

  /** Over positive mappings an author's count summed over all of them lies between 0
      and the total of all of them, and is positive for every author of some mapping. */
  lemma {:induction false} SumOverBounds(ts: seq<Tally>, a: string)
    requires forall i :: 0 <= i < |ts| ==> Positive(ts[i])
    ensures 0 <= SumOver(ts, a) <= TotalOver(ts)
    ensures a in UnionKeys(ts) ==> SumOver(ts, a) > 0
  {
    if ts != [] {
      var n := |ts| - 1;
      assert forall i :: 0 <= i < n ==> ts[..n][i] == ts[i];
      SumOverBounds(ts[..n], a);
      CountOfBounds(ts[n], a);
    }
  }
}
