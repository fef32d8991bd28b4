/** Python's `dict` and `OrderedDict` assignment, as folds over the sequence of
    `(key, value)` assignments a loop performs. */
module Dicts {

  /** The keys a sequence of assignments touches. */
  function KeysOf<K, V>(ps: seq<(K, V)>): set<K> {
    set i | 0 <= i < |ps| :: ps[i].0
  }

  /** Assignment `i` is the last one to its key: no later assignment overwrites it. */
  ghost predicate IsLast<K, V>(ps: seq<(K, V)>, i: int) {
    0 <= i < |ps| && ps[i].0 !in KeysOf(ps[i + 1..])
  }

  /** Some prefix of the assignments touches `x` but not yet `y`. */
  ghost predicate AssignedBefore<K, V>(ps: seq<(K, V)>, x: K, y: K) {
    exists n :: 0 <= n <= |ps| && x in KeysOf(ps[..n]) && y !in KeysOf(ps[..n])
  }

  /** No key occurs twice among the entries. */
  ghost predicate DistinctKeys<K, V>(od: seq<(K, V)>) {
    forall a, b :: 0 <= a < b < |od| ==> od[a].0 != od[b].0
  }

  lemma KeysOfLast<K, V>(ps: seq<(K, V)>)
    requires |ps| > 0
    ensures KeysOf(ps) == KeysOf(ps[..|ps| - 1]) + {ps[|ps| - 1].0}
  {
    var init := ps[..|ps| - 1];
    assert forall i :: 0 <= i < |init| ==> init[i] == ps[i];
  }

  lemma IsLastOfInit<K, V>(ps: seq<(K, V)>, i: int)
    requires IsLast(ps, i) && i < |ps| - 1
    ensures IsLast(ps[..|ps| - 1], i)
    ensures ps[i].0 != ps[|ps| - 1].0
  {
    var n := |ps| - 1;
    assert ps[..n][i + 1..] == ps[i + 1..n];
    KeysOfLast(ps[i + 1..]);
    assert ps[i + 1..][..|ps[i + 1..]| - 1] == ps[i + 1..n];
  }

  lemma IsLastOfExtension<K, V>(ps: seq<(K, V)>, i: int)
    requires |ps| > 0 && IsLast(ps[..|ps| - 1], i)
    requires ps[i].0 != ps[|ps| - 1].0
    ensures IsLast(ps, i)
  {
    var n := |ps| - 1;
    assert ps[..n][i + 1..] == ps[i + 1..n];
    KeysOfLast(ps[i + 1..]);
    assert ps[i + 1..][..|ps[i + 1..]| - 1] == ps[i + 1..n];
  }

  lemma AssignLast<K, V>(ps: seq<(K, V)>, d: map<K, V>)
    requires |ps| > 0
    requires forall i :: IsLast(ps[..|ps| - 1], i) ==> ps[i].0 in d && d[ps[i].0] == ps[i].1
    ensures var d' := d[ps[|ps| - 1].0 := ps[|ps| - 1].1];
      forall i :: IsLast(ps, i) ==> ps[i].0 in d' && d'[ps[i].0] == ps[i].1
  {
    var n := |ps| - 1;
    forall i | IsLast(ps, i) && i < n
      ensures ps[i].0 in d && d[ps[i].0] == ps[i].1
    {
      IsLastOfInit(ps, i);
    }
  }

  /** A dict that starts empty and receives every assignment of `ps` in order:
      exactly the assigned keys, each holding the value of its last assignment. */
  function AssignAll<K, V>(ps: seq<(K, V)>): (d: map<K, V>)
    ensures d.Keys == KeysOf(ps)
    ensures forall i :: IsLast(ps, i) ==> d[ps[i].0] == ps[i].1
    decreases |ps|
  {
    if |ps| == 0 then map[]
    else
      var n := |ps| - 1;
      var d := AssignAll(ps[..n]);
      KeysOfLast(ps);
      assert forall i :: IsLast(ps[..n], i) ==> ps[i].0 in d && d[ps[i].0] == ps[i].1 by {
        forall i | IsLast(ps[..n], i)
          ensures ps[i].0 in d && d[ps[i].0] == ps[i].1
        {
          assert ps[..n][i] == ps[i];
        }
      }
      AssignLast(ps, d);
      d[ps[n].0 := ps[n].1]
  }

  /** One more assignment updates the dict built from the earlier ones. */
  lemma AssignAllSnoc<K, V>(ps: seq<(K, V)>, x: (K, V))
    ensures AssignAll(ps + [x]) == AssignAll(ps)[x.0 := x.1]
  {
    assert (ps + [x])[..|ps|] == ps;
  }

  /** Every assigned key has a last assignment. */
  lemma {:induction false} LastAssignmentExists<K, V>(ps: seq<(K, V)>, k: K)
    requires k in KeysOf(ps)
    ensures exists i :: IsLast(ps, i) && ps[i].0 == k
    decreases |ps|
  {
    var n := |ps| - 1;
    KeysOfLast(ps);
    if ps[n].0 == k {
      assert ps[n + 1..] == [];
      assert IsLast(ps, n);
    } else {
      LastAssignmentExists(ps[..n], k);
      var i :| IsLast(ps[..n], i) && ps[..n][i].0 == k;
      IsLastOfExtension(ps, i);
    }
  }

  lemma OdPutKeep<K, V>(od: seq<(K, V)>, k: K, v: V)
    requires DistinctKeys(od) && k in KeysOf(od)
    ensures var r := seq(|od|, a requires 0 <= a < |od| => if od[a].0 == k then (k, v) else od[a]);
      DistinctKeys(r) && KeysOf(r) == KeysOf(od)
  {
    var r := seq(|od|, a requires 0 <= a < |od| => if od[a].0 == k then (k, v) else od[a]);
    assert forall a :: 0 <= a < |od| ==> r[a].0 == od[a].0;
    assert forall x :: x in KeysOf(r) ==> x in KeysOf(od);
    assert forall x :: x in KeysOf(od) ==> x in KeysOf(r);
  }

  lemma OdPutAppend<K, V>(od: seq<(K, V)>, k: K, v: V)
    requires DistinctKeys(od) && k !in KeysOf(od)
    ensures DistinctKeys(od + [(k, v)]) && KeysOf(od + [(k, v)]) == KeysOf(od) + {k}
  {
    var r := od + [(k, v)];
    assert r[..|r| - 1] == od;
    KeysOfLast(r);
    forall a, b | 0 <= a < b < |r|
      ensures r[a].0 != r[b].0
    {
      if b == |od| {
        assert r[a] == od[a];
      }
    }
  }

  /** One assignment to an OrderedDict held as its entry list: an existing key
      keeps its position and takes the new value, a new key is appended. */
  function OdPut<K(==), V>(od: seq<(K, V)>, k: K, v: V): (r: seq<(K, V)>)
    requires DistinctKeys(od)
    ensures DistinctKeys(r)
    ensures KeysOf(r) == KeysOf(od) + {k}
    ensures k in KeysOf(od) ==>
      && |r| == |od|
      && forall a :: 0 <= a < |od| ==> r[a] == (if od[a].0 == k then (k, v) else od[a])
    ensures k !in KeysOf(od) ==> r == od + [(k, v)]
  {
    if k in KeysOf(od) then
      OdPutKeep(od, k, v);
      seq(|od|, a requires 0 <= a < |od| => if od[a].0 == k then (k, v) else od[a])
    else
      OdPutAppend(od, k, v);
      od + [(k, v)]
  }

  /** An OrderedDict that starts empty and receives every assignment of `ps` in order. */
  function OdBuild<K(==), V>(ps: seq<(K, V)>): (r: seq<(K, V)>)
    ensures DistinctKeys(r)
    decreases |ps|
  {
    if |ps| == 0 then []
    else OdPut(OdBuild(ps[..|ps| - 1]), ps[|ps| - 1].0, ps[|ps| - 1].1)
  }

  lemma AssignedBeforeExtension<K, V>(ps: seq<(K, V)>, x: K, y: K)
    requires |ps| > 0 && AssignedBefore(ps[..|ps| - 1], x, y)
    ensures AssignedBefore(ps, x, y)
  {
    var init := ps[..|ps| - 1];
    var n :| 0 <= n <= |init| && x in KeysOf(init[..n]) && y !in KeysOf(init[..n]);
    assert init[..n] == ps[..n];
  }

  /** An OrderedDict built by assignments holds exactly the assigned keys. */
  lemma {:induction false} OdBuildKeys<K, V>(ps: seq<(K, V)>)
    ensures KeysOf(OdBuild(ps)) == KeysOf(ps)
    decreases |ps|
  {
    if |ps| > 0 {
      OdBuildKeys(ps[..|ps| - 1]);
      KeysOfLast(ps);
    }
  }

  /** Each entry of an OrderedDict built by assignments holds the value of the
      last assignment to its key. */
  lemma {:induction false} OdBuildValues<K, V>(ps: seq<(K, V)>)
    ensures forall a :: 0 <= a < |OdBuild(ps)| ==>
      exists i :: IsLast(ps, i) && ps[i] == OdBuild(ps)[a]
    decreases |ps|
  {
    if |ps| > 0 {
      var n := |ps| - 1;
      var init := ps[..n];
      var (k, v) := ps[n];
      var od := OdBuild(init);
      var r := OdBuild(ps);
      OdBuildValues(init);
      forall a | 0 <= a < |r|
        ensures exists i :: IsLast(ps, i) && ps[i] == r[a]
      {
        if r[a].0 == k {
          assert ps[n + 1..] == [];
          assert IsLast(ps, n);
          if k in KeysOf(od) {
            assert r[a] == (k, v);
          } else {
            assert forall a' :: 0 <= a' < |od| ==> od[a'].0 in KeysOf(od);
            assert a == |od|;
          }
          assert ps[n] == r[a];
        } else {
          assert a < |od| && r[a] == od[a];
          var i :| IsLast(init, i) && init[i] == od[a];
          IsLastOfExtension(ps, i);
          assert ps[i] == r[a];
        }
      }
      assert r == OdBuild(ps);
    } else {
      assert |OdBuild(ps)| == 0;
    }
  }

  /** The keys of an OrderedDict built by assignments stand in the order in
      which they were first assigned. */
  lemma {:induction false} OdBuildOrder<K, V>(ps: seq<(K, V)>)
    ensures forall a, b :: 0 <= a < b < |OdBuild(ps)| ==>
      AssignedBefore(ps, OdBuild(ps)[a].0, OdBuild(ps)[b].0)
    decreases |ps|
  {
    if |ps| > 0 {
      var n := |ps| - 1;
      var init := ps[..n];
      var (k, v) := ps[n];
      var od := OdBuild(init);
      var r := OdBuild(ps);
      OdBuildOrder(init);
      OdBuildKeys(init);
      forall a, b | 0 <= a < b < |r|
        ensures AssignedBefore(ps, r[a].0, r[b].0)
      {
        if k in KeysOf(od) || b < |od| {
          assert r[a].0 == od[a].0 && r[b].0 == od[b].0;
          AssignedBeforeExtension(ps, r[a].0, r[b].0);
        } else {
          assert r[b].0 == k && r[a] == od[a];
          assert od[a].0 in KeysOf(od);
          assert ps[..n] == init;
        }
      }
    }
  }
}
