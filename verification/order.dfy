/** Orders used by the data steps: the code-point order Python uses to
    compare `str` values, and `sorted(...)` applied to a set. */
module Order {

  /** Python's `a < b` on strings: lexicographic by code point, a proper
      prefix coming first. */
  predicate StrLt(a: string, b: string)
    decreases |a|
  {
    if |a| == 0 then |b| > 0
    else if |b| == 0 then false
    else if a[0] != b[0] then a[0] < b[0]
    else StrLt(a[1..], b[1..])
  }

  /** Python's `a < b` on integers. */
  predicate IntLt(a: int, b: int) {
    a < b
  }

  ghost predicate Irreflexive<T(!new)>(lt: (T, T) -> bool) {
    forall a :: !lt(a, a)
  }

  ghost predicate Transitive<T(!new)>(lt: (T, T) -> bool) {
    forall a, b, c :: lt(a, b) && lt(b, c) ==> lt(a, c)
  }

  ghost predicate Trichotomous<T(!new)>(lt: (T, T) -> bool) {
    forall a, b :: a != b ==> lt(a, b) || lt(b, a)
  }

  /** A strict total order, the kind `sorted` needs to produce a unique result. */
  ghost predicate StrictTotal<T(!new)>(lt: (T, T) -> bool) {
    Irreflexive(lt) && Transitive(lt) && Trichotomous(lt)
  }

  /** Every element is strictly below every later one. */
  predicate Increasing<T>(s: seq<T>, lt: (T, T) -> bool) {
    forall i, j :: 0 <= i < j < |s| ==> lt(s[i], s[j])
  }

  lemma {:induction false} StrLtIrreflexive(a: string)
    ensures !StrLt(a, a)
    decreases |a|
  {
    if |a| > 0 {
      StrLtIrreflexive(a[1..]);
    }
  }

  lemma {:induction false} StrLtTransitive(a: string, b: string, c: string)
    requires StrLt(a, b) && StrLt(b, c)
    ensures StrLt(a, c)
    decreases |a|
  {
    if |a| > 0 && a[0] == b[0] && b[0] == c[0] {
      StrLtTransitive(a[1..], b[1..], c[1..]);
    }
  }

  lemma {:induction false} StrLtTrichotomous(a: string, b: string)
    requires a != b
    ensures StrLt(a, b) || StrLt(b, a)
    decreases |a|
  {
    if |a| > 0 && |b| > 0 && a[0] == b[0] {
      assert a == [a[0]] + a[1..] && b == [b[0]] + b[1..];
      StrLtTrichotomous(a[1..], b[1..]);
    }
  }

  /** `a <= b` and `b <= c` give `a <= c`, with `<=` written as "not greater". */
  lemma StrLeTransitive(a: string, b: string, c: string)
    requires !StrLt(b, a) && !StrLt(c, b)
    ensures !StrLt(c, a)
  {
    if a != b {
      StrLtTrichotomous(a, b);
      if StrLt(c, a) {
        StrLtTransitive(c, a, b);
      }
    }
  }

  lemma StrLtAsymmetric(a: string, b: string)
    requires StrLt(a, b)
    ensures !StrLt(b, a)
  {
    if StrLt(b, a) {
      StrLtTransitive(a, b, a);
      StrLtIrreflexive(a);
    }
  }

  /** String comparison is a strict total order, so sorting strings is well defined. */
  lemma StrLtStrictTotal()
    ensures StrictTotal(StrLt)
  {
    forall a | true ensures !StrLt(a, a) { StrLtIrreflexive(a); }
    forall a, b, c | StrLt(a, b) && StrLt(b, c) ensures StrLt(a, c) {
      StrLtTransitive(a, b, c);
    }
    forall a, b | a != b ensures StrLt(a, b) || StrLt(b, a) {
      StrLtTrichotomous(a, b);
    }
  }

  lemma IntLtStrictTotal()
    ensures StrictTotal(IntLt)
  {
  }

  /** `m` is the least element of `s`. */
  ghost predicate IsMin<T(!new)>(m: T, s: set<T>, lt: (T, T) -> bool) {
    m in s && forall x :: x in s && x != m ==> lt(m, x)
  }

  lemma MinOfInsert<T(!new)>(s: set<T>, m: T, y: T, lt: (T, T) -> bool)
    requires StrictTotal(lt)
    requires IsMin(m, s, lt) && y !in s
    ensures lt(m, y) ==> IsMin(m, s + {y}, lt)
    ensures !lt(m, y) ==> IsMin(y, s + {y}, lt)
  {
    if !lt(m, y) {
      assert lt(y, m);
      forall x | x in s && x != m
        ensures lt(y, x)
      {
        assert lt(m, x);
      }
    }
  }

  lemma {:induction false} MinExists<T(!new)>(s: set<T>, lt: (T, T) -> bool)
    requires s != {}
    requires StrictTotal(lt)
    ensures exists m :: IsMin(m, s, lt)
    decreases |s|
  {
    var y :| y in s;
    if s == {y} {
      assert IsMin(y, s, lt);
    } else {
      var s' := s - {y};
      MinExists(s', lt);
      var m :| IsMin(m, s', lt);
      MinOfInsert(s', m, y, lt);
      assert s' + {y} == s;
    }
  }

  /** The least element of a non-empty set. */
  function Min<T(!new)>(s: set<T>, lt: (T, T) -> bool): (m: T)
    requires s != {}
    requires StrictTotal(lt)
    ensures m in s
    ensures forall x :: x in s && x != m ==> lt(m, x)
  {
    MinExists(s, lt);
    var m :| m in s && forall x :: x in s && x != m ==> lt(m, x);
    m
  }

  /** `sorted(s)` for a set `s`: its elements, each once, in ascending order. */
  function SortSet<T(!new)>(s: set<T>, lt: (T, T) -> bool): (r: seq<T>)
    requires StrictTotal(lt)
    ensures Increasing(r, lt)
    ensures forall x :: x in r <==> x in s
    ensures |r| == |s|
    decreases |s|
  {
    if s == {} then []
    else
      var m := Min(s, lt);
      var rest := SortSet(s - {m}, lt);
      assert forall j :: 0 <= j < |rest| ==> lt(m, rest[j]);
      [m] + rest
  }
}
