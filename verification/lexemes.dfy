/** Attaching concepts to lexemes from the etymology word-list items, and
    dropping the lexemes that end up without a concept. */
module Lexemes {
  import opened Wrappers
  import Strings

  /** A parsed lexeme. Text fields are `None` when the element is missing;
      `concepts` starts empty and is filled from the word-list items. */
  datatype Lexeme = Lexeme(
    lang: int,
    transcription: Option<string>,
    transliteration: Option<string>,
    ipa: Option<string>,
    meaning: Option<string>,
    meaningNote: Option<string>,
    sources: seq<(Option<string>, Option<string>)>,
    concepts: set<string>)

  /** One entry of the etymology file: a word-list item id and the ids of
      the lexemes connected to it. */
  datatype EtymologyItem = EtymologyItem(wli: int, connected: seq<int>)

  /** The `KeyError`s the annotation loop can raise. */
  datatype Error =
    | UnknownWordListItem(wli: int)  // the item id is not in `concept_map`
    | UnknownLexeme(lid: int)        // a connected id is not a lexeme

  /** Every lookup of the loop succeeds: each item id is in the concept map,
      and when its concept is truthy each connected id is a lexeme. */
  ghost predicate Resolvable(cm: map<int, string>, keys: set<int>, items: seq<EtymologyItem>) {
    forall it :: it in items ==>
      && it.wli in cm
      && (Strings.Truthy(cm[it.wli]) ==> forall l :: l in it.connected ==> l in keys)
  }

  /** The concepts the items give to lexeme `k`: the truthy concept of every
      item that lists `k` among its connected lexemes. */
  ghost function Added(cm: map<int, string>, items: seq<EtymologyItem>, k: int): set<string> {
    set it | it in items && it.wli in cm && Strings.Truthy(cm[it.wli]) && k in it.connected :: cm[it.wli]
  }

  /** Lexeme `k` with concepts `extra` added and every other field kept. */
  function Grown(x: Lexeme, extra: set<string>): Lexeme {
    x.(concepts := x.concepts + extra)
  }

  /** Adds concept `c` to the lexeme of every id of `ids`, in order. */
  function AddConcept(lexemes: map<int, Lexeme>, ids: seq<int>, c: string): (r: Result<map<int, Lexeme>, Error>)
    ensures r.Success? <==> forall l :: l in ids ==> l in lexemes
    ensures r.Failure? ==> r.error.UnknownLexeme? && r.error.lid in ids && r.error.lid !in lexemes
    ensures r.Failure? ==> exists j :: FirstMiss(lexemes, ids, j) && ids[j] == r.error.lid
    ensures r.Success? ==>
      && r.value.Keys == lexemes.Keys
      && forall k :: k in lexemes ==>
           r.value[k] == Grown(lexemes[k], if k in ids then {c} else {})
  {
    if |ids| == 0 then Success(lexemes)
    else if ids[0] !in lexemes then Failure(UnknownLexeme(ids[0]))
    else
      var l := lexemes[ids[0] := Grown(lexemes[ids[0]], {c})];
      var r := AddConcept(l, ids[1..], c);
      assert forall x :: x in ids <==> x == ids[0] || x in ids[1..];
      if r.Failure? then
        FirstMissCons(lexemes, l, ids, r.error.lid);
        r
      else r
  }

  /** `ids[j]` is the first id of `ids` that is not a lexeme: the one the
      loop raises its `KeyError` on. */
  predicate FirstMiss(lexemes: map<int, Lexeme>, ids: seq<int>, j: int) {
    0 <= j < |ids| && ids[j] !in lexemes && forall i :: 0 <= i < j ==> ids[i] in lexemes
  }

  /** A first miss among the later ids, after a hit on the first, is the
      first miss of the whole list. */
  lemma FirstMissCons(lexemes: map<int, Lexeme>, l: map<int, Lexeme>, ids: seq<int>, lid: int)
    requires |ids| > 0 && ids[0] in lexemes && l.Keys == lexemes.Keys
    requires exists j :: FirstMiss(l, ids[1..], j) && ids[1..][j] == lid
    ensures exists j :: FirstMiss(lexemes, ids, j) && ids[j] == lid
  {
    var j :| FirstMiss(l, ids[1..], j) && ids[1..][j] == lid;
    assert FirstMiss(lexemes, ids, j + 1);
  }

  /** The loop over the etymology items: an item whose concept is falsy is
      skipped, every other item adds its concept to its connected lexemes. */
  function Annotate(cm: map<int, string>, lexemes: map<int, Lexeme>, items: seq<EtymologyItem>): (r: Result<map<int, Lexeme>, Error>)
    ensures r.Success? <==> Resolvable(cm, lexemes.Keys, items)
    ensures r.Failure? && r.error.UnknownWordListItem? ==>
      exists it :: it in items && it.wli == r.error.wli && it.wli !in cm
    ensures r.Failure? && r.error.UnknownLexeme? ==>
      && r.error.lid !in lexemes
      && exists it :: it in items && it.wli in cm && Strings.Truthy(cm[it.wli]) && r.error.lid in it.connected
    ensures r.Failure? ==> exists j :: RaisedAt(cm, lexemes, items, j, r.error)
    ensures r.Success? ==>
      && r.value.Keys == lexemes.Keys
      && forall k :: k in lexemes ==> r.value[k] == Grown(lexemes[k], Added(cm, items, k))
    decreases |items|
  {
    if |items| == 0 then Success(lexemes)
    else
      var it := items[0];
      AddedCons(cm, items);
      ResolvableCons(cm, lexemes.Keys, items);
      if it.wli !in cm then
        assert RaisedAt(cm, lexemes, items, 0, UnknownWordListItem(it.wli));
        Failure(UnknownWordListItem(it.wli))
      else if !Strings.Truthy(cm[it.wli]) then
        var r := Annotate(cm, lexemes, items[1..]);
        if r.Failure? then
          RaisedLater(cm, lexemes, lexemes, items, r.error);
          r
        else r
      else
        match AddConcept(lexemes, it.connected, cm[it.wli])
        case Failure(e) =>
          assert RaisedAt(cm, lexemes, items, 0, e);
          Failure(e)
        case Success(l) =>
          var r := Annotate(cm, l, items[1..]);
          if r.Failure? then
            RaisedLater(cm, lexemes, l, items, r.error);
            r
          else
            GrownByFirstItem(cm, lexemes, l, items, r.value);
            r
  }

  /** Item `it` raises nothing: its id is in the concept map and, when its
      concept is truthy, every connected id is a lexeme. */
  predicate Resolves(cm: map<int, string>, lexemes: map<int, Lexeme>, it: EtymologyItem) {
    it.wli in cm && (Strings.Truthy(cm[it.wli]) ==> forall l :: l in it.connected ==> l in lexemes)
  }

  /** The loop raises `e` at `items[j]`: every earlier item resolves, and
      `e` is the `KeyError` of the item id or of the first connected id
      that is not a lexeme. */
  ghost predicate RaisedAt(cm: map<int, string>, lexemes: map<int, Lexeme>, items: seq<EtymologyItem>, j: int, e: Error) {
    && 0 <= j < |items|
    && !Resolves(cm, lexemes, items[j])
    && (forall i :: 0 <= i < j ==> Resolves(cm, lexemes, items[i]))
    && if items[j].wli !in cm then e == UnknownWordListItem(items[j].wli)
       else e.UnknownLexeme? && exists k :: FirstMiss(lexemes, items[j].connected, k) && items[j].connected[k] == e.lid
  }

  /** An error raised among the later items, after the first resolved
      without changing the lexeme ids, is raised at the same item of the
      whole list. */
  lemma RaisedLater(cm: map<int, string>, lexemes: map<int, Lexeme>, l: map<int, Lexeme>, items: seq<EtymologyItem>, e: Error)
    requires |items| > 0 && Resolves(cm, lexemes, items[0]) && l.Keys == lexemes.Keys
    requires exists j :: RaisedAt(cm, l, items[1..], j, e)
    ensures exists j :: RaisedAt(cm, lexemes, items, j, e)
  {
    var j :| RaisedAt(cm, l, items[1..], j, e);
    assert RaisedAt(cm, lexemes, items, j + 1, e);
  }

  /** Growing by the first item and then by the rest grows by all items. */
  lemma GrownByFirstItem(
    cm: map<int, string>, lexemes: map<int, Lexeme>, l: map<int, Lexeme>, items: seq<EtymologyItem>,
    r: map<int, Lexeme>)
    requires |items| > 0 && items[0].wli in cm && Strings.Truthy(cm[items[0].wli])
    requires l.Keys == lexemes.Keys
    requires forall k :: k in lexemes ==>
      l[k] == Grown(lexemes[k], if k in items[0].connected then {cm[items[0].wli]} else {})
    requires r.Keys == l.Keys && forall k :: k in l ==> r[k] == Grown(l[k], Added(cm, items[1..], k))
    ensures forall k :: k in lexemes ==> r[k] == Grown(lexemes[k], Added(cm, items, k))
  {
    AddedCons(cm, items);
  }

  /** The concepts one item gives to lexeme `k`. */
  ghost function Step(cm: map<int, string>, it: EtymologyItem, k: int): set<string> {
    if it.wli in cm && Strings.Truthy(cm[it.wli]) && k in it.connected then {cm[it.wli]} else {}
  }

  lemma AddedCons(cm: map<int, string>, items: seq<EtymologyItem>)
    requires |items| > 0
    ensures forall k ::
      Added(cm, items, k) == Added(cm, items[1..], k) + Step(cm, items[0], k)
  {
    assert forall it :: it in items <==> it == items[0] || it in items[1..];
  }

  lemma ResolvableCons(cm: map<int, string>, keys: set<int>, items: seq<EtymologyItem>)
    requires |items| > 0
    ensures Resolvable(cm, keys, items) <==>
      && items[0].wli in cm
      && (Strings.Truthy(cm[items[0].wli]) ==> forall l :: l in items[0].connected ==> l in keys)
      && Resolvable(cm, keys, items[1..])
  {
    assert forall it :: it in items <==> it == items[0] || it in items[1..];
  }

  /** A successful annotation depends only on which items there are: any
      reordering or repetition of the items gives the same lexemes. */
  lemma {:induction false} AnnotateOrderIndependent(
    cm: map<int, string>, lexemes: map<int, Lexeme>, items: seq<EtymologyItem>, items': seq<EtymologyItem>)
    requires forall it :: it in items <==> it in items'
    ensures Annotate(cm, lexemes, items).Success? <==> Annotate(cm, lexemes, items').Success?
    ensures Annotate(cm, lexemes, items).Success? ==>
      Annotate(cm, lexemes, items).value == Annotate(cm, lexemes, items').value
  {
    var r, r' := Annotate(cm, lexemes, items), Annotate(cm, lexemes, items');
    if r.Success? {
      forall k | k in lexemes
        ensures r.value[k] == r'.value[k]
      {
        assert Added(cm, items, k) == Added(cm, items', k);
      }
    }
  }

  /** The filter after annotation: only lexemes with some concept are kept. */
  function Retain(lexemes: map<int, Lexeme>): (r: map<int, Lexeme>)
  {
    map k | k in lexemes && lexemes[k].concepts != {} :: lexemes[k]
  }

  /** Starting from concept-less lexemes, a lexeme survives the filter
      exactly when some item with a truthy concept lists it, and it then
      holds exactly the concepts of those items. */
  lemma RetainedIffConnected(cm: map<int, string>, lexemes: map<int, Lexeme>, items: seq<EtymologyItem>)
    requires forall k :: k in lexemes ==> lexemes[k].concepts == {}
    requires Annotate(cm, lexemes, items).Success?
    ensures var kept := Retain(Annotate(cm, lexemes, items).value);
      && (forall k :: k in kept <==>
            k in lexemes
            && exists it :: it in items && it.wli in cm && Strings.Truthy(cm[it.wli]) && k in it.connected)
      && (forall k :: k in kept ==>
            kept[k] == lexemes[k].(concepts := Added(cm, items, k)))
  {
    var a := Annotate(cm, lexemes, items).value;
    forall k | k in lexemes
      ensures a[k].concepts != {} <==>
        exists it :: it in items && it.wli in cm && Strings.Truthy(cm[it.wli]) && k in it.connected
    {
      forall it | it in items && it.wli in cm && Strings.Truthy(cm[it.wli]) && k in it.connected
        ensures cm[it.wli] in a[k].concepts
      {
      }
      if a[k].concepts != {} {
        var c :| c in Added(cm, items, k);
      }
    }
  }

  /** `lids`: the language ids of the given lexemes. */
  function LanguageIds(lexemes: map<int, Lexeme>): (r: set<int>)
  {
    set k | k in lexemes :: lexemes[k].lang
  }
}
