/** Ranking as the analyzers do it: Python's `max(..., key=count)`, the stable
    `sorted(..., key=count, reverse=True)` (equal counts keep their first-encountered
    order; there is no alphabetical tie-break), `Counter.most_common(n)` and top-N
    slices, with percentages of a total. */
module Ranking {
  import opened Optional
  import opened Counts

  /** Index of `max(t, key=lambda x: x[1])`: a largest count, the earliest among ties. */
  function ArgMax(t: Tally): (k: nat)
    requires t != []
    ensures k < |t|
    ensures forall j :: 0 <= j < |t| ==> t[j].1 <= t[k].1
    ensures forall j :: 0 <= j < k ==> t[j].1 < t[k].1
  {
    if |t| == 1 then 0
    else
      var k := ArgMax(t[..|t| - 1]);
      if t[|t| - 1].1 > t[k].1 then |t| - 1 else k
  }

  /** `max(t.items(), key=...)` guarded by `if t`: `None` for an empty mapping. */
  function TopEntry(t: Tally): (r: Option<Entry>)
    ensures r.None? <==> t == []
  {
    if t == [] then None else Some(t[ArgMax(t)])
  }

  function Count(e: Entry): int { e.1 }

  /** Every adjacent or distant pair is in non-increasing key order. */
  predicate Descending<T>(s: seq<T>, key: T -> int) {
    forall i, j :: 0 <= i < j < |s| ==> key(s[i]) >= key(s[j])
  }

  /** The elements whose key is `k`, in their order. */
  function WithKey<T>(s: seq<T>, key: T -> int, k: int): seq<T> {
    if s == [] then [] else (if key(s[0]) == k then [s[0]] else []) + WithKey(s[1..], key, k)
  }

  /** Places `x` in front of the first element whose key is not larger. */
  function Insert<T>(x: T, s: seq<T>, key: T -> int): (r: seq<T>)
    ensures multiset(r) == multiset(s) + multiset{x}
    ensures |r| == |s| + 1
  {
    if s == [] || key(s[0]) <= key(x) then [x] + s
    else
      assert s == [s[0]] + s[1..];
      [s[0]] + Insert(x, s[1..], key)
  }

  /** `sorted(s, key=key, reverse=True)`, a stable sort. */
  function SortDesc<T>(s: seq<T>, key: T -> int): seq<T> {
    if s == [] then [] else Insert(s[0], SortDesc(s[1..], key), key)
  }

  lemma {:induction false} InsertDescending<T>(x: T, s: seq<T>, key: T -> int)
    requires Descending(s, key)
    ensures Descending(Insert(x, s, key), key)
  {
    if s != [] && key(s[0]) > key(x) {
      InsertDescending(x, s[1..], key);
      var r := Insert(x, s, key);
      forall j | 0 < j < |r| ensures key(r[0]) >= key(r[j]) {
        assert r[j] in multiset(Insert(x, s[1..], key));
        assert r[j] == x || r[j] in multiset(s[1..]);
        if r[j] != x {
          var m :| 0 <= m < |s[1..]| && s[1..][m] == r[j];
          assert s[m + 1] == r[j];
        }
      }
    }
  }

  lemma {:induction false} InsertWithKey<T>(x: T, s: seq<T>, key: T -> int, k: int)
    requires Descending(s, key)
    ensures WithKey(Insert(x, s, key), key, k)
         == (if key(x) == k then [x] else []) + WithKey(s, key, k)
  {
    if s == [] || key(s[0]) <= key(x) {
      WithKeyCons(x, s, key, k);
      if key(x) == k && s != [] && key(s[0]) < k {
        NoneWithKey(s, key, k);
      }
    } else {
      var t := Insert(x, s[1..], key);
      assert Descending(s[1..], key);
      InsertWithKey(x, s[1..], key, k);
      WithKeyCons(s[0], t, key, k);
      InsertLater(x, s, key, k, t);
    }
  }

  /** The elements with key `k` of a sequence with `x` in front. */
  lemma WithKeyCons<T>(x: T, s: seq<T>, key: T -> int, k: int)
    ensures WithKey([x] + s, key, k) == (if key(x) == k then [x] else []) + WithKey(s, key, k)
  {
    assert ([x] + s)[1..] == s;
  }

  /** The step of `InsertWithKey` where `x` goes behind the head: the head and `x`
      cannot both have key `k`, so their order among the key-`k` elements is moot. */
  lemma InsertLater<T>(x: T, s: seq<T>, key: T -> int, k: int, t: seq<T>)
    requires s != [] && key(s[0]) > key(x)
    requires WithKey(t, key, k) == (if key(x) == k then [x] else []) + WithKey(s[1..], key, k)
    ensures (if key(s[0]) == k then [s[0]] else []) + WithKey(t, key, k)
         == (if key(x) == k then [x] else []) + WithKey(s, key, k)
  {
    if key(s[0]) == k {
      assert WithKey(s, key, k) == [s[0]] + WithKey(s[1..], key, k);
    } else {
      assert WithKey(s, key, k) == WithKey(s[1..], key, k);
    }
  }

  /** In a descending sequence whose first key is below `k`, nothing has key `k`. */
  lemma {:induction false} NoneWithKey<T>(s: seq<T>, key: T -> int, k: int)
    requires Descending(s, key) && s != [] && key(s[0]) < k
    ensures WithKey(s, key, k) == []
  {
    if |s| > 1 {
      assert Descending(s[1..], key);
      NoneWithKey(s[1..], key, k);
    }
  }

  /** The stable descending sort is in order and a permutation of its input. */
  lemma SortDescSpec<T>(s: seq<T>, key: T -> int)
    ensures Descending(SortDesc(s, key), key)
    ensures multiset(SortDesc(s, key)) == multiset(s)
    ensures |SortDesc(s, key)| == |s|
  {
    SortDescOrdered(s, key);
    SortDescPerm(s, key);
  }

  lemma {:induction false} SortDescOrdered<T>(s: seq<T>, key: T -> int)
    ensures Descending(SortDesc(s, key), key)
  {
    if s != [] {
      SortDescOrdered(s[1..], key);
      InsertDescending(s[0], SortDesc(s[1..], key), key);
    }
  }

  lemma {:induction false} SortDescPerm<T>(s: seq<T>, key: T -> int)
    ensures multiset(SortDesc(s, key)) == multiset(s)
    ensures |SortDesc(s, key)| == |s|
  {
    if s != [] {
      SortDescPerm(s[1..], key);
      assert s == [s[0]] + s[1..];
    }
  }

  /** It is stable: for every count, the items with that count appear in their
      original order. */
  lemma {:induction false} SortDescStable<T>(s: seq<T>, key: T -> int, k: int)
    ensures WithKey(SortDesc(s, key), key, k) == WithKey(s, key, k)
  {
    if s != [] {
      SortDescStable(s[1..], key, k);
      SortDescSpec(s[1..], key);
      InsertWithKey(s[0], SortDesc(s[1..], key), key, k);
    }
  }

  /** The first element with key `k` heads the elements with key `k`. */
  lemma {:induction false} WithKeyFirst<T>(s: seq<T>, key: T -> int, i: nat)
    requires i < |s| && forall j :: 0 <= j < i ==> key(s[j]) != key(s[i])
    ensures WithKey(s, key, key(s[i])) != [] && WithKey(s, key, key(s[i]))[0] == s[i]
  {
    if i > 0 {
      WithKeyFirst(s[1..], key, i - 1);
    }
  }

  /** The head of the stable descending sort is the entry `max` returns. */
  lemma SortDescHead(t: Tally)
    requires t != []
    ensures SortDesc(t, Count)[0] == t[ArgMax(t)]
  {
    var r := SortDesc(t, Count);
    SortDescSpec(t, Count);
    var k := ArgMax(t);
    var m := t[k].1;
    assert t[k] in multiset(r);
    var p :| 0 <= p < |r| && r[p] == t[k];
    assert r[0] in multiset(t);
    var q :| 0 <= q < |t| && t[q] == r[0];
    assert Count(r[0]) == m;
    WithKeyFirst(r, Count, 0);
    WithKeyFirst(t, Count, k);
    SortDescStable(t, Count, m);
  }

  /** `s[:n]` */
  function Take<T>(s: seq<T>, n: nat): (r: seq<T>)
    ensures |r| == if n < |s| then n else |s|
    ensures r == s[..|r|]
  {
    if n < |s| then s[..n] else s
  }

  /** `sorted(t.items(), key=count, reverse=True)[:n]`; also `Counter(t).most_common(n)`,
      which CPython computes with `heapq.nlargest`, documented to agree with it. */
  function Leaderboard(t: Tally, n: nat): Tally {
    Take(SortDesc(t, Count), n)
  }

  /** A leaderboard holds min(n, |t|) of the mapping's entries, in non-increasing count
      order, and starts with the `max` entry. */
  lemma LeaderboardSpec(t: Tally, n: nat)
    ensures |Leaderboard(t, n)| == if n < |t| then n else |t|
    ensures Descending(Leaderboard(t, n), Count)
    ensures forall i :: 0 <= i < |Leaderboard(t, n)| ==> Leaderboard(t, n)[i] in t
    ensures n > 0 && t != [] ==> Leaderboard(t, n)[0] == t[ArgMax(t)]
  {
    var r := SortDesc(t, Count);
    SortDescSpec(t, Count);
    var l := Leaderboard(t, n);
    forall i | 0 <= i < |l| ensures l[i] in t {
      assert l[i] == r[i];
      assert r[i] in multiset(t);
    }
    if n > 0 && t != [] { SortDescHead(t); }
  }

  /** The elements with key `k` of a prefix are a prefix of those of the whole. */
  lemma {:induction false} WithKeyPrefix<T>(s: seq<T>, key: T -> int, k: int, m: nat)
    requires m <= |s|
    ensures WithKey(s[..m], key, k) <= WithKey(s, key, k)
  {
    if m > 0 {
      assert s[..m][0] == s[0];
      assert s[..m][1..] == s[1..][..m - 1];
      WithKeyPrefix(s[1..], key, k, m - 1);
    }
  }

  /** Ties keep their first-encountered order: the entries of the leaderboard with a
      given count are the first entries of the mapping with that count, in order. */
  lemma LeaderboardStable(t: Tally, n: nat, k: int)
    ensures WithKey(Leaderboard(t, n), Count, k) <= WithKey(t, Count, k)
  {
    var r := SortDesc(t, Count);
    SortDescSpec(t, Count);
    WithKeyPrefix(r, Count, k, |Leaderboard(t, n)|);
    SortDescStable(t, Count, k);
  }

  /** Every entry of the mapping is either on the leaderboard or among those the sort
      puts after it; when the board is shorter than `n`, it holds every entry. */
  lemma LeaderboardCovers(t: Tally, n: nat)
    ensures forall e :: e in t ==> e in Leaderboard(t, n) || e in SortDesc(t, Count)[|Leaderboard(t, n)|..]
    ensures |Leaderboard(t, n)| < n ==> forall e :: e in t ==> e in Leaderboard(t, n)
  {
    var r := SortDesc(t, Count);
    SortDescPerm(t, Count);
    TakeCovers(r, n);
    forall e | e in t ensures e in r {
      assert e in multiset(r);
    }
  }

  /** A prefix and the rest after it hold every element between them; a prefix
      shorter than asked for is the whole sequence. */
  lemma TakeCovers<T>(r: seq<T>, m: nat)
    ensures forall e :: e in r ==> e in Take(r, m) || e in r[|Take(r, m)|..]
    ensures |Take(r, m)| < m ==> Take(r, m) == r
  {
    var l := Take(r, m);
    forall e | e in r ensures e in l || e in r[|l|..] {
      var k :| 0 <= k < |r| && r[k] == e;
      if k < |l| {
        assert l[k] == e;
      } else {
        assert r[|l|..][k - |l|] == e;
      }
    }
  }

  /** Every entry the leaderboard leaves out has a count no larger than any entry kept. */
  lemma LeaderboardCut(t: Tally, n: nat)
    ensures forall i, e :: 0 <= i < |Leaderboard(t, n)| && e in SortDesc(t, Count)[|Leaderboard(t, n)|..]
              ==> e.1 <= Leaderboard(t, n)[i].1
  {
    var r := SortDesc(t, Count);
    SortDescSpec(t, Count);
    var l := Leaderboard(t, n);
    forall i, e | 0 <= i < |l| && e in r[|l|..] ensures e.1 <= l[i].1 {
      var j :| 0 <= j < |r[|l|..]| && r[|l|..][j] == e;
      assert r[|l| + j] == e;
      assert l[i] == r[i];
    }
  }

  /** `(c / total * 100) if total > 0 else 0`, in exact arithmetic. */
  function Percent(c: int, total: int): real {
    if total > 0 then (c as real) * 100.0 / (total as real) else 0.0
  }

  function PercentSum(t: Tally, total: int): real {
    if t == [] then 0.0 else Percent(t[0].1, total) + PercentSum(t[1..], total)
  }

  /** A share of a total lies between 0 and 100, and 0 is shown when the total is 0. */
  lemma PercentBounds(c: int, total: int)
    ensures total <= 0 ==> Percent(c, total) == 0.0
    ensures 0 <= c <= total ==> 0.0 <= Percent(c, total) <= 100.0
    ensures 0 < c <= total ==> 0.0 < Percent(c, total)
  {
    if 0 <= c <= total && total > 0 {
      assert (c as real) * 100.0 <= (total as real) * 100.0;
    }
    if 0 < c <= total {
      assert (c as real) * 100.0 > 0.0;
    }
  }

  /** The percentages of all entries add up to 100 of their own total. */
  lemma {:induction false} PercentSumAll(t: Tally, total: int)
    requires total > 0
    ensures PercentSum(t, total) == (Sum(t) as real) * 100.0 / (total as real)
  {
    if t != [] {
      PercentSumAll(t[1..], total);
    }
  }
}
