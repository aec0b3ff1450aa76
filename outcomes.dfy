/** The batch loops' split of the requested repositories into an ordered list of
    results that succeeded and an ordered list of names that failed. A per-repository
    result is `Some(r)` for a success and `None` for a failure. */
module Outcomes {
  import opened Optional

  /** The successful results, in order (`successful_repos`). */
  function Successes<R>(rs: seq<Option<R>>): (s: seq<R>)
    ensures |s| <= |rs|
  {
    if rs == [] then []
    else
      var last := rs[|rs| - 1];
      Successes(rs[..|rs| - 1]) + (if last.Some? then [last.value] else [])
  }

  /** The names whose result failed, in order (`failed_repos`). */
  function Failures<R>(names: seq<string>, rs: seq<Option<R>>): (f: seq<string>)
    requires |names| == |rs|
    ensures |f| <= |rs|
  {
    if rs == [] then []
    else
      var last := rs[|rs| - 1];
      Failures(names[..|names| - 1], rs[..|rs| - 1])
        + (if last.None? then [names[|names| - 1]] else [])
  }

  /** The names the successful results carry. */
  function Names<R>(s: seq<R>, nameOf: R -> string): (ns: seq<string>)
    ensures |ns| == |s|
    ensures forall i :: 0 <= i < |s| ==> ns[i] == nameOf(s[i])
  {
    if s == [] then [] else Names(s[..|s| - 1], nameOf) + [nameOf(s[|s| - 1])]
  }

  /** Every requested name is counted once: as a success or as a failure. */
  lemma {:induction false} PartitionSizes<R>(names: seq<string>, rs: seq<Option<R>>)
    requires |names| == |rs|
    ensures |Successes(rs)| + |Failures(names, rs)| == |names|
  {
    if rs != [] {
      PartitionSizes(names[..|names| - 1], rs[..|rs| - 1]);
    }
  }

  /** The names whose result succeeded, in order. */
  function SucceededNames<R>(names: seq<string>, rs: seq<Option<R>>): seq<string>
    requires |names| == |rs|
  {
    if rs == [] then []
    else
      var n := |rs| - 1;
      SucceededNames(names[..n], rs[..n]) + (if rs[n].Some? then [names[n]] else [])
  }

  /** When each success carries the name it was run for, the successful names and the
      failed names together are exactly the requested names (with multiplicity). */
  lemma PartitionNames<R>(names: seq<string>, rs: seq<Option<R>>, nameOf: R -> string)
    requires |names| == |rs|
    requires forall i :: 0 <= i < |rs| && rs[i].Some? ==> nameOf(rs[i].value) == names[i]
    ensures multiset(Names(Successes(rs), nameOf)) + multiset(Failures(names, rs)) == multiset(names)
  {
    SuccessNamesMatch(names, rs, nameOf);
    SplitNames(names, rs);
  }

  /** The successes carry, in order, the names that succeeded. */
  lemma {:induction false} SuccessNamesMatch<R>(names: seq<string>, rs: seq<Option<R>>, nameOf: R -> string)
    requires |names| == |rs|
    requires forall i :: 0 <= i < |rs| && rs[i].Some? ==> nameOf(rs[i].value) == names[i]
    ensures Names(Successes(rs), nameOf) == SucceededNames(names, rs)
  {
    if rs != [] {
      var n := |rs| - 1;
      forall i | 0 <= i < n && rs[..n][i].Some? ensures nameOf(rs[..n][i].value) == names[..n][i] {
        assert rs[..n][i] == rs[i] && names[..n][i] == names[i];
      }
      SuccessNamesMatch(names[..n], rs[..n], nameOf);
      var s := Successes(rs[..n]);
      if rs[n].Some? {
        assert Successes(rs) == s + [rs[n].value];
        assert (s + [rs[n].value])[..|s|] == s;
        assert Names(s + [rs[n].value], nameOf) == Names(s, nameOf) + [names[n]];
      } else {
        assert Successes(rs) == s;
      }
    }
  }

  /** The succeeded and the failed names split the requested names. */
  lemma {:induction false} SplitNames<R>(names: seq<string>, rs: seq<Option<R>>)
    requires |names| == |rs|
    ensures multiset(SucceededNames(names, rs)) + multiset(Failures(names, rs)) == multiset(names)
  {
    if rs != [] {
      var n := |rs| - 1;
      SplitNames(names[..n], rs[..n]);
      assert names[..n] + [names[n]] == names;
    }
  }

  /** Nothing succeeded exactly when every result is a failure. */
  lemma {:induction false} NoSuccesses<R>(rs: seq<Option<R>>)
    ensures Successes(rs) == [] <==> forall i :: 0 <= i < |rs| ==> rs[i].None?
  {
    if rs != [] {
      var n := |rs| - 1;
      NoSuccesses(rs[..n]);
      if forall i :: 0 <= i < n ==> rs[..n][i].None? {
        assert forall i :: 0 <= i < n ==> rs[i] == rs[..n][i];
      }
    }
  }

  /** Without any success every name is a failure, in order. */
  lemma {:induction false} AllFailed<R>(names: seq<string>, rs: seq<Option<R>>)
    requires |names| == |rs| && Successes(rs) == []
    ensures Failures(names, rs) == names
  {
    if rs != [] {
      var n := |rs| - 1;
      AllFailed(names[..n], rs[..n]);
      assert names[..n] + [names[n]] == names;
    }
  }

  /** A name that was not requested is in neither list. */
  lemma Unrequested<R>(names: seq<string>, rs: seq<Option<R>>, nameOf: R -> string, x: string)
    requires |names| == |rs|
    requires forall i :: 0 <= i < |rs| && rs[i].Some? ==> nameOf(rs[i].value) == names[i]
    requires x !in names
    ensures x !in Failures(names, rs)
    ensures forall r :: r in Successes(rs) ==> nameOf(r) != x
  {
    PartitionNames(names, rs, nameOf);
    assert multiset(names)[x] == 0;
    var s := Successes(rs);
    forall r | r in s ensures nameOf(r) != x {
      var j :| 0 <= j < |s| && s[j] == r;
      assert Names(s, nameOf)[j] == nameOf(r);
      assert nameOf(r) in multiset(Names(s, nameOf));
    }
  }

  /** Processing more names never changes the lists built so far: the lists of a
      prefix of the run are prefixes of the lists of the whole run. */
  lemma {:induction false} PrefixOutcomes<R>(names: seq<string>, rs: seq<Option<R>>, k: nat)
    requires |names| == |rs| && k <= |rs|
    ensures Successes(rs[..k]) <= Successes(rs)
    ensures Failures(names[..k], rs[..k]) <= Failures(names, rs)
    decreases |rs|
  {
    if k < |rs| {
      var n := |rs| - 1;
      PrefixOutcomes(names[..n], rs[..n], k);
      assert rs[..n][..k] == rs[..k];
      assert names[..n][..k] == names[..k];
    } else {
      assert rs[..k] == rs;
      assert names[..k] == names;
    }
  }

  /** One more name: its result joins the successes or its name joins the failures. */
  lemma OutcomesSnoc<R>(names: seq<string>, rs: seq<Option<R>>, i: nat)
    requires |names| == |rs| && i < |rs|
    ensures Successes(rs[..i + 1]) == Successes(rs[..i]) + (if rs[i].Some? then [rs[i].value] else [])
    ensures Failures(names[..i + 1], rs[..i + 1])
         == Failures(names[..i], rs[..i]) + (if rs[i].None? then [names[i]] else [])
  {
    assert rs[..i + 1][..i] == rs[..i];
    assert names[..i + 1][..i] == names[..i];
  }

  /** `results[name] = r` for every success in order, starting from `m`. */
  function Recorded<R>(m: map<string, R>, names: seq<string>, rs: seq<Option<R>>): map<string, R>
    requires |names| == |rs|
  {
    if rs == [] then m
    else
      var n := |rs| - 1;
      var prior := Recorded(m, names[..n], rs[..n]);
      if rs[n].Some? then prior[names[n] := rs[n].value] else prior
  }

  /** A name has a recorded result exactly when it had one before or succeeded at least
      once; a name never analysed keeps its old result. */
  lemma {:induction false} RecordedKeys<R>(m: map<string, R>, names: seq<string>, rs: seq<Option<R>>, a: string)
    requires |names| == |rs|
    ensures a in Recorded(m, names, rs) <==>
      a in m || exists i :: 0 <= i < |rs| && names[i] == a && rs[i].Some?
    ensures (forall i :: 0 <= i < |rs| ==> names[i] != a) && a in m ==> Recorded(m, names, rs)[a] == m[a]
  {
    if rs != [] {
      var n := |rs| - 1;
      RecordedKeys(m, names[..n], rs[..n], a);
      if exists i :: 0 <= i < n && names[..n][i] == a && rs[..n][i].Some? {
        var i :| 0 <= i < n && names[..n][i] == a && rs[..n][i].Some?;
        assert names[i] == a && rs[i].Some?;
      }
      if exists i :: 0 <= i < |rs| && names[i] == a && rs[i].Some? {
        var i :| 0 <= i < |rs| && names[i] == a && rs[i].Some?;
        if i < n { assert names[..n][i] == a && rs[..n][i].Some?; }
      }
      if forall i :: 0 <= i < |rs| ==> names[i] != a {
        assert forall i :: 0 <= i < n ==> names[..n][i] != a by {
          forall i | 0 <= i < n ensures names[..n][i] != a { assert names[..n][i] == names[i]; }
        }
      }
    }
  }

  /** Analysing a name again overwrites its result: the recorded result is the one of
      the name's last success. */
  lemma {:induction false} RecordedLast<R>(m: map<string, R>, names: seq<string>, rs: seq<Option<R>>, k: nat)
    requires |names| == |rs| && k < |rs| && rs[k].Some?
    requires forall j :: k < j < |rs| && names[j] == names[k] ==> rs[j].None?
    ensures names[k] in Recorded(m, names, rs) && Recorded(m, names, rs)[names[k]] == rs[k].value
  {
    var n := |rs| - 1;
    if k < n {
      assert forall j :: k < j < n && names[..n][j] == names[..n][k] ==> rs[..n][j].None? by {
        forall j | k < j < n && names[..n][j] == names[..n][k] ensures rs[..n][j].None? {
          assert names[..n][j] == names[j] && rs[..n][j] == rs[j];
        }
      }
      RecordedLast(m, names[..n], rs[..n], k);
      assert names[..n][k] == names[k] && rs[..n][k] == rs[k];
    }
  }

  lemma RecordedSnoc<R>(m: map<string, R>, names: seq<string>, rs: seq<Option<R>>, i: nat)
    requires |names| == |rs| && i < |rs|
    ensures Recorded(m, names[..i + 1], rs[..i + 1])
         == (var prior := Recorded(m, names[..i], rs[..i]);
             if rs[i].Some? then prior[names[i] := rs[i].value] else prior)
  {
    assert rs[..i + 1][..i] == rs[..i];
    assert names[..i + 1][..i] == names[..i];
  }
}
