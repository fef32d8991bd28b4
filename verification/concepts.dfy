/** The concept table built at the start of `cmd_makecldf`: the concept list
    is sorted by CONCEPTICON_ID, grouped with `groupby`, and folded into the
    `concepts` OrderedDict (CONCEPTICON_ID to gloss) and the `concept_map`
    dict (DIACL_ID to CONCEPTICON_ID). */
module Concepts {
  import opened Order
  import Dicts
  import opened Strings

  /** One row of the concept list. DIACL_ID is already converted with `int`;
      CONCEPTICON_ID is the text of the list ("" when the concept is unmapped). */
  datatype ConceptRow = ConceptRow(diaclId: int, concepticonId: string, gloss: string)

  /** One group yielded by `groupby`: its key and its run of rows. */
  datatype Group = Group(key: string, items: seq<ConceptRow>)

  /** The built table: `concepts` as its list of entries, and `concept_map`. */
  datatype ConceptTable = ConceptTable(concepts: seq<(string, string)>, conceptMap: map<int, string>)

  /** A concept record handed to the writer: ID, Name and Concepticon_ID. */
  datatype ConceptRecord = ConceptRecord(id: string, name: string, concepticonId: string)

  /** Rows in non-decreasing CONCEPTICON_ID order. */
  ghost predicate Sorted(s: seq<ConceptRow>) {
    forall i, j :: 0 <= i < j < |s| ==> !StrLt(s[j].concepticonId, s[i].concepticonId)
  }

  /** The rows with CONCEPTICON_ID `c`, in their order in `s`. */
  function WithKey(s: seq<ConceptRow>, c: string): seq<ConceptRow> {
    if |s| == 0 then []
    else (if s[0].concepticonId == c then [s[0]] else []) + WithKey(s[1..], c)
  }

  // ---------------------------------------------------------------------
  // sorted(self.concepts, key=CONCEPTICON_ID): a stable sort

  /** Puts `x` in front of the first row whose key is not smaller than its own. */
  function Insert(x: ConceptRow, s: seq<ConceptRow>): seq<ConceptRow> {
    if |s| == 0 then [x]
    else if StrLt(s[0].concepticonId, x.concepticonId) then [s[0]] + Insert(x, s[1..])
    else [x] + s
  }

  lemma {:induction false} InsertPermutes(x: ConceptRow, s: seq<ConceptRow>)
    ensures multiset(Insert(x, s)) == multiset(s) + multiset{x}
    decreases |s|
  {
    if |s| > 0 && StrLt(s[0].concepticonId, x.concepticonId) {
      InsertPermutes(x, s[1..]);
      assert s == [s[0]] + s[1..];
    }
  }

  lemma {:induction false} InsertKeepsRuns(x: ConceptRow, s: seq<ConceptRow>, c: string)
    ensures WithKey(Insert(x, s), c) == (if x.concepticonId == c then [x] else []) + WithKey(s, c)
    decreases |s|
  {
    if |s| > 0 {
      var r := Insert(x, s);
      if StrLt(s[0].concepticonId, x.concepticonId) {
        InsertKeepsRuns(x, s[1..], c);
        assert r[1..] == Insert(x, s[1..]);
        if x.concepticonId == c {
          StrLtIrreflexive(c);
          assert s[0].concepticonId != c;
        }
      } else {
        assert r[1..] == s;
      }
    }
  }

  lemma {:induction false} InsertSorted(x: ConceptRow, s: seq<ConceptRow>)
    requires Sorted(s)
    ensures Sorted(Insert(x, s))
    decreases |s|
  {
    if |s| > 0 {
      var r := Insert(x, s);
      if StrLt(s[0].concepticonId, x.concepticonId) {
        InsertSorted(x, s[1..]);
        InsertPermutes(x, s[1..]);
        assert r == [s[0]] + Insert(x, s[1..]);
        forall j | 0 < j < |r|
          ensures !StrLt(r[j].concepticonId, s[0].concepticonId)
        {
          assert r[j] in multiset(Insert(x, s[1..]));
          if r[j] != x {
            assert r[j] in multiset(s[1..]);
            var k :| 0 <= k < |s[1..]| && s[1..][k] == r[j];
            assert s[k + 1] == r[j];
          } else {
            StrLtAsymmetric(s[0].concepticonId, x.concepticonId);
          }
        }
      } else {
        forall j | 0 < j < |r|
          ensures !StrLt(r[j].concepticonId, x.concepticonId)
        {
          assert r[j] == s[j - 1];
          if j == 1 {
            StrLtIrreflexive(s[0].concepticonId);
          }
          StrLeTransitive(x.concepticonId, s[0].concepticonId, s[j - 1].concepticonId);
        }
      }
    }
  }

  /** Sorting the concept list by CONCEPTICON_ID: Python's sort is stable, so rows
      with equal keys keep their input order. The result is a permutation of
      the input, in non-decreasing key order, and for every key it lists that
      key's rows exactly as the input does. */
  function SortRows(rows: seq<ConceptRow>): (r: seq<ConceptRow>)
    ensures Sorted(r)
    ensures multiset(r) == multiset(rows)
    ensures forall c :: WithKey(r, c) == WithKey(rows, c)
    decreases |rows|
  {
    if |rows| == 0 then []
    else
      var rest := SortRows(rows[1..]);
      SortStep(rows, rest);
      Insert(rows[0], rest)
  }

  /** Inserting the first row into the sorted rest sorts the whole list. */
  lemma SortStep(rows: seq<ConceptRow>, rest: seq<ConceptRow>)
    requires |rows| > 0
    requires Sorted(rest) && multiset(rest) == multiset(rows[1..])
    requires forall c :: WithKey(rest, c) == WithKey(rows[1..], c)
    ensures Sorted(Insert(rows[0], rest))
    ensures multiset(Insert(rows[0], rest)) == multiset(rows)
    ensures forall c :: WithKey(Insert(rows[0], rest), c) == WithKey(rows, c)
  {
    InsertSorted(rows[0], rest);
    InsertPermutes(rows[0], rest);
    assert rows == [rows[0]] + rows[1..];
    forall c
      ensures WithKey(Insert(rows[0], rest), c) == WithKey(rows, c)
    {
      InsertKeepsRuns(rows[0], rest, c);
    }
  }

  // ---------------------------------------------------------------------
  // groupby(..., key=CONCEPTICON_ID)

  /** `groupby(s, key)`: the maximal runs of consecutive rows with equal key. */
  function GroupBy(s: seq<ConceptRow>): (gs: seq<Group>)
    ensures |s| > 0 ==> |gs| > 0 && gs[0].key == s[0].concepticonId
    decreases |s|
  {
    if |s| == 0 then []
    else
      var rest := GroupBy(s[1..]);
      if |rest| > 0 && rest[0].key == s[0].concepticonId then
        [Group(rest[0].key, [s[0]] + rest[0].items)] + rest[1..]
      else
        [Group(s[0].concepticonId, [s[0]])] + rest
  }

  /** Each row paired with its own key. */
  function Keyed(s: seq<ConceptRow>): seq<(string, ConceptRow)> {
    seq(|s|, i requires 0 <= i < |s| => (s[i].concepticonId, s[i]))
  }

  /** `for item in items` inside one group: the group key with each item. */
  function Visit(g: Group): seq<(string, ConceptRow)> {
    seq(|g.items|, i requires 0 <= i < |g.items| => (g.key, g.items[i]))
  }

  /** `for cid, items in groups: for item in items`: the pairs the nested loop visits. */
  function Visits(gs: seq<Group>): seq<(string, ConceptRow)> {
    if |gs| == 0 then [] else Visit(gs[0]) + Visits(gs[1..])
  }

  /** The nested loop over `groupby`'s groups and their items visits every row
      once, in input order, with the row's own key as `cid`. */
  lemma {:induction false} GroupByVisitsEveryRow(s: seq<ConceptRow>)
    ensures Visits(GroupBy(s)) == Keyed(s)
    decreases |s|
  {
    if |s| > 0 {
      var rest := GroupBy(s[1..]);
      var gs := GroupBy(s);
      var x := s[0];
      GroupByVisitsEveryRow(s[1..]);
      assert Keyed(s) == [(x.concepticonId, x)] + Keyed(s[1..]);
      assert gs[1..] == (if |rest| > 0 && rest[0].key == x.concepticonId then rest[1..] else rest);
      if |rest| > 0 && rest[0].key == x.concepticonId {
        assert Visit(gs[0]) == [(x.concepticonId, x)] + Visit(rest[0]);
      } else {
        assert Visit(gs[0]) == [(x.concepticonId, x)];
      }
    }
  }

  /** A sequence of groups as `groupby` yields them: every group is a
      non-empty run of rows sharing the group's key, and two neighbouring
      groups never share a key (the runs are maximal). */
  ghost predicate Runs(gs: seq<Group>) {
    && (forall a :: 0 <= a < |gs| ==> |gs[a].items| > 0)
    && (forall a, i :: 0 <= a < |gs| && 0 <= i < |gs[a].items| ==>
          gs[a].items[i].concepticonId == gs[a].key)
    && (forall a :: 0 < a < |gs| ==> gs[a - 1].key != gs[a].key)
  }

  /** `groupby` splits its input into maximal runs of equal keys. */
  lemma {:induction false} GroupByRuns(s: seq<ConceptRow>)
    ensures Runs(GroupBy(s))
    decreases |s|
  {
    if |s| > 0 {
      GroupByRuns(s[1..]);
      var rest := GroupBy(s[1..]);
      var gs := GroupBy(s);
      if |rest| > 0 && rest[0].key == s[0].concepticonId {
        assert gs == [Group(rest[0].key, [s[0]] + rest[0].items)] + rest[1..];
        assert forall a :: 0 < a < |gs| ==> gs[a] == rest[a];
        assert forall i :: 0 < i < |gs[0].items| ==> gs[0].items[i] == rest[0].items[i - 1];
        assert Runs(gs);
      } else {
        assert gs == [Group(s[0].concepticonId, [s[0]])] + rest;
        assert forall a :: 0 < a < |gs| ==> gs[a] == rest[a - 1];
        assert Runs(gs);
      }
    }
  }

  /** Group keys in strictly ascending order. */
  ghost predicate KeysAscend(gs: seq<Group>) {
    forall a, b :: 0 <= a < b < |gs| ==> StrLt(gs[a].key, gs[b].key)
  }

  /** On sorted rows each key forms a single group and the groups come in
      strictly ascending key order, as `groupby` after `sorted` intends. */
  lemma {:induction false} GroupKeysAscend(s: seq<ConceptRow>)
    requires Sorted(s)
    ensures KeysAscend(GroupBy(s))
    decreases |s|
  {
    if |s| > 0 {
      var rest := GroupBy(s[1..]);
      var gs := GroupBy(s);
      GroupKeysAscend(s[1..]);
      var merged := |rest| > 0 && rest[0].key == s[0].concepticonId;
      var off := if merged then 0 else 1;
      assert forall b :: 0 < b < |gs| ==> gs[b] == rest[b - off];
      forall b | 0 < b < |gs|
        ensures StrLt(gs[0].key, gs[b].key)
      {
        assert KeysAscend(rest);
        if merged {
          assert gs[0].key == rest[0].key && gs[b] == rest[b];
        } else {
          assert s[1..][0] == s[1];
          assert rest[0].key == s[1].concepticonId;
          assert !StrLt(s[1].concepticonId, s[0].concepticonId);
          StrLtTrichotomous(s[0].concepticonId, rest[0].key);
          if b - 1 > 0 {
            StrLtTransitive(gs[0].key, rest[0].key, rest[b - 1].key);
          }
        }
      }
      forall a, b | 0 <= a < b < |gs|
        ensures StrLt(gs[a].key, gs[b].key)
      {
        if a > 0 {
          assert gs[a] == rest[a - off] && gs[b] == rest[b - off];
        }
      }
    }
  }

  // ---------------------------------------------------------------------
  // Runs of one key

  lemma {:induction false} RunOfAbsentKey(s: seq<ConceptRow>, c: string)
    requires forall j :: 0 <= j < |s| ==> s[j].concepticonId != c
    ensures WithKey(s, c) == []
    decreases |s|
  {
    if |s| > 0 {
      RunOfAbsentKey(s[1..], c);
    }
  }

  lemma {:induction false} RunOfPresentKey(s: seq<ConceptRow>, c: string, j: int)
    requires 0 <= j < |s| && s[j].concepticonId == c
    ensures |WithKey(s, c)| > 0
    decreases |s|
  {
    if j > 0 {
      RunOfPresentKey(s[1..], c, j - 1);
    }
  }

  /** The last row of a key's run is the row of that key with the highest index. */
  lemma {:induction false} RunEndsWithLastRow(s: seq<ConceptRow>, c: string, i: int)
    requires 0 <= i < |s| && s[i].concepticonId == c
    requires forall j :: i < j < |s| ==> s[j].concepticonId != c
    ensures |WithKey(s, c)| > 0 && WithKey(s, c)[|WithKey(s, c)| - 1] == s[i]
    decreases |s|
  {
    if i == 0 {
      RunOfAbsentKey(s[1..], c);
    } else {
      RunEndsWithLastRow(s[1..], c, i - 1);
    }
  }

  lemma {:induction false} RunHasLastRow(s: seq<ConceptRow>, c: string) returns (i: int)
    requires |WithKey(s, c)| > 0
    ensures 0 <= i < |s| && s[i].concepticonId == c
    ensures forall j :: i < j < |s| ==> s[j].concepticonId != c
    decreases |s|
  {
    if |WithKey(s[1..], c)| > 0 {
      var k := RunHasLastRow(s[1..], c);
      i := k + 1;
      forall j | i < j < |s|
        ensures s[j].concepticonId != c
      {
        assert s[j] == s[1..][j - 1];
      }
    } else {
      i := 0;
      forall j | 0 < j < |s|
        ensures s[j].concepticonId != c
      {
        if s[j].concepticonId == c {
          RunOfPresentKey(s[1..], c, j - 1);
        }
      }
    }
  }

  // ---------------------------------------------------------------------
  // The concept table

  /** The loop's assignments to `concepts`: each visited key receives its row's gloss. */
  function GlossAssignments(v: seq<(string, ConceptRow)>): seq<(string, string)> {
    seq(|v|, i requires 0 <= i < |v| => (v[i].0, v[i].1.gloss))
  }

  /** The loop's assignments to `concept_map`: each visited row's DIACL_ID receives the group key. */
  function MapAssignments(v: seq<(string, ConceptRow)>): seq<(int, string)> {
    seq(|v|, i requires 0 <= i < |v| => (v[i].1.diaclId, v[i].0))
  }

  /** The loop of `cmd_makecldf` over `groupby(sorted(concepts))`. */
  function BuildConcepts(rows: seq<ConceptRow>): ConceptTable {
    var v := Visits(GroupBy(SortRows(rows)));
    ConceptTable(Dicts.OdBuild(GlossAssignments(v)), Dicts.AssignAll(MapAssignments(v)))
  }

  /** The nested loop over the groups of `t` performs one assignment per row of `t`. */
  lemma LoopAssignments(t: seq<ConceptRow>)
    ensures var v := Visits(GroupBy(t));
      && |GlossAssignments(v)| == |t| == |MapAssignments(v)|
      && (forall i :: 0 <= i < |t| ==> GlossAssignments(v)[i] == (t[i].concepticonId, t[i].gloss))
      && (forall i :: 0 <= i < |t| ==> MapAssignments(v)[i] == (t[i].diaclId, t[i].concepticonId))
  {
    GroupByVisitsEveryRow(t);
  }

  /** Where a row of a permutation of `rows` sits in `rows`. */
  lemma IndexIn(rows: seq<ConceptRow>, t: seq<ConceptRow>, i: int) returns (k: int)
    requires multiset(t) == multiset(rows) && 0 <= i < |t|
    ensures 0 <= k < |rows| && rows[k] == t[i]
  {
    assert t[i] in multiset(rows);
    k :| 0 <= k < |rows| && rows[k] == t[i];
  }

  lemma PrefixHoldsKey<K, V>(ps: seq<(K, V)>, n: int, j: int)
    requires 0 <= j < n <= |ps|
    ensures ps[j].0 in Dicts.KeysOf(ps[..n])
  {
    assert ps[..n][j] == ps[j];
  }

  lemma LaterKeysDiffer<K, V>(ps: seq<(K, V)>, i: int)
    requires Dicts.IsLast(ps, i)
    ensures forall j :: i < j < |ps| ==> ps[j].0 != ps[i].0
  {
    forall j | i < j < |ps|
      ensures ps[j].0 != ps[i].0
    {
      assert ps[i + 1..][j - i - 1] == ps[j];
    }
  }

  /** Ascending keys for the OrderedDict built from sorted rows. */
  lemma OdKeysAscend(t: seq<ConceptRow>, ps: seq<(string, string)>)
    requires Sorted(t) && |ps| == |t|
    requires forall i :: 0 <= i < |t| ==> ps[i].0 == t[i].concepticonId
    ensures var od := Dicts.OdBuild(ps);
      forall a, b :: 0 <= a < b < |od| ==> StrLt(od[a].0, od[b].0)
  {
    var od := Dicts.OdBuild(ps);
    Dicts.OdBuildKeys(ps);
    Dicts.OdBuildOrder(ps);
    forall a, b | 0 <= a < b < |od|
      ensures StrLt(od[a].0, od[b].0)
    {
      var x, y := od[a].0, od[b].0;
      var n :| 0 <= n <= |ps| && x in Dicts.KeysOf(ps[..n]) && y !in Dicts.KeysOf(ps[..n]);
      var i :| 0 <= i < |ps[..n]| && ps[..n][i].0 == x;
      assert y in Dicts.KeysOf(ps) by {
        assert od[b].0 in Dicts.KeysOf(od);
      }
      var j :| 0 <= j < |ps| && ps[j].0 == y;
      if j < n {
        PrefixHoldsKey(ps, n, j);
      }
      assert i < j;
      assert !StrLt(y, x);
      StrLtTrichotomous(x, y);
    }
  }

  /** The keys assigned by a permutation of the list are the list's CONCEPTICON_IDs. */
  lemma PermutedKeys<V>(rows: seq<ConceptRow>, t: seq<ConceptRow>, ps: seq<(string, V)>)
    requires multiset(t) == multiset(rows)
    requires |ps| == |t| && forall i :: 0 <= i < |t| ==> ps[i].0 == t[i].concepticonId
    ensures Dicts.KeysOf(ps) == (set k | 0 <= k < |rows| :: rows[k].concepticonId)
  {
    forall x | x in Dicts.KeysOf(ps)
      ensures x in (set k | 0 <= k < |rows| :: rows[k].concepticonId)
    {
      var i :| 0 <= i < |ps| && ps[i].0 == x;
      var k := IndexIn(rows, t, i);
    }
    forall k | 0 <= k < |rows|
      ensures rows[k].concepticonId in Dicts.KeysOf(ps)
    {
      var i := IndexIn(t, rows, k);
      assert ps[i].0 == rows[k].concepticonId;
    }
  }

  /** `concepts` holds exactly the CONCEPTICON_IDs of the concept list, each
      once, in strictly ascending order. */
  lemma ConceptKeysAscend(rows: seq<ConceptRow>)
    ensures var od := BuildConcepts(rows).concepts;
      && Dicts.KeysOf(od) == (set k | 0 <= k < |rows| :: rows[k].concepticonId)
      && forall a, b :: 0 <= a < b < |od| ==> StrLt(od[a].0, od[b].0)
  {
    var t := SortRows(rows);
    var ps := GlossAssignments(Visits(GroupBy(t)));
    LoopAssignments(t);
    Dicts.OdBuildKeys(ps);
    OdKeysAscend(t, ps);
    PermutedKeys(rows, t, ps);
  }

  /** The last row with key `c` is the last row of `c`'s run. */
  lemma LastRowOfRun(s: seq<ConceptRow>, c: string) returns (k: int)
    requires |WithKey(s, c)| > 0
    ensures 0 <= k < |s| && s[k].concepticonId == c
    ensures forall j :: k < j < |s| ==> s[j].concepticonId != c
    ensures s[k] == WithKey(s, c)[|WithKey(s, c)| - 1]
  {
    k := RunHasLastRow(s, c);
    RunEndsWithLastRow(s, c, k);
  }

  /** The row of the list whose gloss a key's last assignment carries. */
  lemma GlossOfLastRow(rows: seq<ConceptRow>, t: seq<ConceptRow>, ps: seq<(string, string)>, i: int) returns (k: int)
    requires |ps| == |t| && forall j :: 0 <= j < |t| ==> ps[j] == (t[j].concepticonId, t[j].gloss)
    requires Dicts.IsLast(ps, i)
    requires WithKey(t, ps[i].0) == WithKey(rows, ps[i].0)
    ensures 0 <= k < |rows| && rows[k].concepticonId == ps[i].0 && rows[k].gloss == ps[i].1
    ensures forall j :: k < j < |rows| ==> rows[j].concepticonId != ps[i].0
  {
    var c := ps[i].0;
    LaterKeysDiffer(ps, i);
    RunEndsWithLastRow(t, c, i);
    k := LastRowOfRun(rows, c);
  }

  /** Each entry of `concepts` carries the gloss of the last row, in list
      order, with that CONCEPTICON_ID: the stable sort keeps a key's rows in
      list order and later assignments overwrite earlier ones. */
  lemma ConceptGlossIsLast(rows: seq<ConceptRow>)
    ensures var od := BuildConcepts(rows).concepts;
      forall a :: 0 <= a < |od| ==> exists k ::
        && 0 <= k < |rows| && rows[k].concepticonId == od[a].0 && rows[k].gloss == od[a].1
        && forall j :: k < j < |rows| ==> rows[j].concepticonId != od[a].0
  {
    var od := BuildConcepts(rows).concepts;
    forall a | 0 <= a < |od|
      ensures exists k ::
        && 0 <= k < |rows| && rows[k].concepticonId == od[a].0 && rows[k].gloss == od[a].1
        && forall j :: k < j < |rows| ==> rows[j].concepticonId != od[a].0
    {
      var k := EntryGlossRow(rows, a);
    }
  }

  /** The row whose gloss entry `a` of `concepts` carries. */
  lemma EntryGlossRow(rows: seq<ConceptRow>, a: int) returns (k: int)
    requires 0 <= a < |BuildConcepts(rows).concepts|
    ensures var e := BuildConcepts(rows).concepts[a];
      && 0 <= k < |rows| && rows[k].concepticonId == e.0 && rows[k].gloss == e.1
      && forall j :: k < j < |rows| ==> rows[j].concepticonId != e.0
  {
    var t := SortRows(rows);
    var ps := GlossAssignments(Visits(GroupBy(t)));
    var od := Dicts.OdBuild(ps);
    LoopAssignments(t);
    Dicts.OdBuildValues(ps);
    var i :| Dicts.IsLast(ps, i) && ps[i] == od[a];
    assert WithKey(t, ps[i].0) == WithKey(rows, ps[i].0);
    k := GlossOfLastRow(rows, t, ps, i);
  }

  /** The last assignment to a DIACL_ID carries the greatest of its CONCEPTICON_IDs. */
  lemma LastIsGreatest(rows: seq<ConceptRow>, t: seq<ConceptRow>, ps: seq<(int, string)>, i: int)
    requires Sorted(t) && multiset(t) == multiset(rows)
    requires |ps| == |t| && forall j :: 0 <= j < |t| ==> ps[j] == (t[j].diaclId, t[j].concepticonId)
    requires Dicts.IsLast(ps, i)
    ensures exists k :: 0 <= k < |rows| && rows[k].diaclId == ps[i].0 && rows[k].concepticonId == ps[i].1
    ensures forall k :: 0 <= k < |rows| && rows[k].diaclId == ps[i].0 ==> !StrLt(ps[i].1, rows[k].concepticonId)
  {
    var k0 := IndexIn(rows, t, i);
    LaterKeysDiffer(ps, i);
    forall k | 0 <= k < |rows| && rows[k].diaclId == ps[i].0
      ensures !StrLt(ps[i].1, rows[k].concepticonId)
    {
      var j := IndexIn(t, rows, k);
      assert j <= i by {
        assert ps[j].0 == ps[i].0;
      }
      if j == i {
        StrLtIrreflexive(ps[i].1);
      }
    }
  }

  /** The DIACL_IDs assigned by a permutation of the list are the list's DIACL_IDs. */
  lemma PermutedIds(rows: seq<ConceptRow>, t: seq<ConceptRow>, ps: seq<(int, string)>)
    requires multiset(t) == multiset(rows)
    requires |ps| == |t| && forall i :: 0 <= i < |t| ==> ps[i].0 == t[i].diaclId
    ensures Dicts.KeysOf(ps) == (set k | 0 <= k < |rows| :: rows[k].diaclId)
  {
    forall x | x in Dicts.KeysOf(ps)
      ensures x in (set k | 0 <= k < |rows| :: rows[k].diaclId)
    {
      var i :| 0 <= i < |ps| && ps[i].0 == x;
      var k := IndexIn(rows, t, i);
    }
    forall k | 0 <= k < |rows|
      ensures rows[k].diaclId in Dicts.KeysOf(ps)
    {
      var i := IndexIn(t, rows, k);
      assert ps[i].0 == rows[k].diaclId;
    }
  }

  /** `concept_map` has one key per DIACL_ID of the list. A DIACL_ID listed
      under several CONCEPTICON_IDs keeps the greatest of them, because it
      is assigned last in the sorted order. */
  lemma ConceptMapKeepsGreatest(rows: seq<ConceptRow>)
    ensures var cm := BuildConcepts(rows).conceptMap;
      && cm.Keys == (set k | 0 <= k < |rows| :: rows[k].diaclId)
      && (forall d :: d in cm ==>
            exists k :: 0 <= k < |rows| && rows[k].diaclId == d && rows[k].concepticonId == cm[d])
      && (forall k :: 0 <= k < |rows| ==> !StrLt(cm[rows[k].diaclId], rows[k].concepticonId))
  {
    var t := SortRows(rows);
    var ps := MapAssignments(Visits(GroupBy(t)));
    var cm := Dicts.AssignAll(ps);
    LoopAssignments(t);
    PermutedIds(rows, t, ps);
    forall d | d in cm
      ensures exists k :: 0 <= k < |rows| && rows[k].diaclId == d && rows[k].concepticonId == cm[d]
      ensures forall k :: 0 <= k < |rows| && rows[k].diaclId == d ==> !StrLt(cm[d], rows[k].concepticonId)
    {
      Dicts.LastAssignmentExists(ps, d);
      var i :| Dicts.IsLast(ps, i) && ps[i].0 == d;
      LastIsGreatest(rows, t, ps, i);
    }
  }

  /** The writer loop over `concepts`: one record per truthy CONCEPTICON_ID,
      in the order of the OrderedDict. */
  function ConceptRecords(od: seq<(string, string)>): (r: seq<ConceptRecord>)
    ensures |r| <= |od|
    ensures forall x :: x in r ==> Truthy(x.id) && x.concepticonId == x.id && (x.id, x.name) in od
    ensures forall e :: e in od && Truthy(e.0) ==> ConceptRecord(e.0, e.1, e.0) in r
    ensures (forall a, b :: 0 <= a < b < |od| ==> StrLt(od[a].0, od[b].0)) ==>
      forall a, b :: 0 <= a < b < |r| ==> StrLt(r[a].id, r[b].id)
    decreases |od|
  {
    if |od| == 0 then []
    else
      var rest := ConceptRecords(od[1..]);
      RecordsStep(od, rest);
      RecordsStepAscend(od, rest);
      if Truthy(od[0].0) then [ConceptRecord(od[0].0, od[0].1, od[0].0)] + rest else rest
  }

  /** The records of `od` are those of its first entry, when its key is
      truthy, followed by the records `rest` of the later entries. */
  lemma RecordsStep(od: seq<(string, string)>, rest: seq<ConceptRecord>)
    requires |od| > 0
    requires |rest| <= |od[1..]|
    requires forall x :: x in rest ==> Truthy(x.id) && x.concepticonId == x.id && (x.id, x.name) in od[1..]
    requires forall e :: e in od[1..] && Truthy(e.0) ==> ConceptRecord(e.0, e.1, e.0) in rest
    ensures var r := if Truthy(od[0].0) then [ConceptRecord(od[0].0, od[0].1, od[0].0)] + rest else rest;
      && |r| <= |od|
      && (forall x :: x in r ==> Truthy(x.id) && x.concepticonId == x.id && (x.id, x.name) in od)
      && (forall e :: e in od && Truthy(e.0) ==> ConceptRecord(e.0, e.1, e.0) in r)
  {
    assert forall e :: e in od <==> e == od[0] || e in od[1..];
  }

  /** The same step keeps the ids ascending when the keys ascend. */
  lemma RecordsStepAscend(od: seq<(string, string)>, rest: seq<ConceptRecord>)
    requires |od| > 0
    requires forall x :: x in rest ==> (x.id, x.name) in od[1..]
    requires (forall a, b :: 0 <= a < b < |od[1..]| ==> StrLt(od[1..][a].0, od[1..][b].0)) ==>
      forall a, b :: 0 <= a < b < |rest| ==> StrLt(rest[a].id, rest[b].id)
    ensures var r := if Truthy(od[0].0) then [ConceptRecord(od[0].0, od[0].1, od[0].0)] + rest else rest;
      (forall a, b :: 0 <= a < b < |od| ==> StrLt(od[a].0, od[b].0)) ==>
        forall a, b :: 0 <= a < b < |r| ==> StrLt(r[a].id, r[b].id)
  {
    TailAscends(od);
    if Truthy(od[0].0) {
      RecordsAfterFirst(od, rest);
    }
  }

  lemma TailAscends(od: seq<(string, string)>)
    requires |od| > 0
    ensures (forall a, b :: 0 <= a < b < |od| ==> StrLt(od[a].0, od[b].0)) ==>
      forall a, b :: 0 <= a < b < |od[1..]| ==> StrLt(od[1..][a].0, od[1..][b].0)
  {
    if forall a, b :: 0 <= a < b < |od| ==> StrLt(od[a].0, od[b].0) {
      forall a, b | 0 <= a < b < |od[1..]|
        ensures StrLt(od[1..][a].0, od[1..][b].0)
      {
        assert od[1..][a] == od[a + 1] && od[1..][b] == od[b + 1];
      }
    }
  }

  /** Putting the first key's record in front of the records of the later,
      greater keys keeps the ids strictly ascending. */
  lemma RecordsAfterFirst(od: seq<(string, string)>, rest: seq<ConceptRecord>)
    requires |od| > 0
    requires forall x :: x in rest ==> (x.id, x.name) in od[1..]
    requires (forall a, b :: 0 <= a < b < |od[1..]| ==> StrLt(od[1..][a].0, od[1..][b].0)) ==>
      forall a, b :: 0 <= a < b < |rest| ==> StrLt(rest[a].id, rest[b].id)
    ensures (forall a, b :: 0 <= a < b < |od| ==> StrLt(od[a].0, od[b].0)) ==>
      var r := [ConceptRecord(od[0].0, od[0].1, od[0].0)] + rest;
      forall a, b :: 0 <= a < b < |r| ==> StrLt(r[a].id, r[b].id)
  {
    var r := [ConceptRecord(od[0].0, od[0].1, od[0].0)] + rest;
    if forall a, b :: 0 <= a < b < |od| ==> StrLt(od[a].0, od[b].0) {
      TailAscends(od);
      forall a, b | 0 <= a < b < |r|
        ensures StrLt(r[a].id, r[b].id)
      {
        assert r[b] == rest[b - 1];
        if a == 0 {
          var k :| 0 <= k < |od[1..]| && od[1..][k] == (r[b].id, r[b].name);
          assert od[k + 1].0 == r[b].id;
        } else {
          assert r[a] == rest[a - 1];
        }
      }
    }
  }

  /** The concept records of the concept list come in strictly ascending
      CONCEPTICON_ID order, so no concept is written twice. */
  lemma ConceptRecordsAscend(rows: seq<ConceptRow>)
    ensures var r := ConceptRecords(BuildConcepts(rows).concepts);
      forall a, b :: 0 <= a < b < |r| ==> StrLt(r[a].id, r[b].id) && r[a].id != r[b].id
  {
    ConceptKeysAscend(rows);
    var r := ConceptRecords(BuildConcepts(rows).concepts);
    forall a, b | 0 <= a < b < |r|
      ensures r[a].id != r[b].id
    {
      StrLtIrreflexive(r[a].id);
    }
  }
}
