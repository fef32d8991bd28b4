/** Planning the form records: one `add_forms_from_value` call per retained
    lexeme and concept, by ascending lexeme id and then by concept. */
module Forms {
  import opened Wrappers
  import Order
  import Lexemes

  /** The values handed to `add_forms_from_value`. */
  datatype FormPlan = FormPlan(
    value: Option<string>,
    language: int,
    parameter: string,
    diaclId: int,
    source: seq<Option<string>>,
    transliteration: Option<string>,
    ipa: Option<string>,
    meaning: Option<string>,
    meaningNote: Option<string>)

  /** The source id (first component) of every source
      reference, in order. */
  function SourceIds(sources: seq<(Option<string>, Option<string>)>): (r: seq<Option<string>>)
  {
    seq(|sources|, i requires 0 <= i < |sources| => sources[i].0)
  }

  /** The form of lexeme `lid` for concept `c`. */
  function FormOf(lid: int, lex: Lexemes.Lexeme, c: string): FormPlan {
    FormPlan(lex.transcription, lex.lang, c, lid, SourceIds(lex.sources),
             lex.transliteration, lex.ipa, lex.meaning, lex.meaningNote)
  }

  /** Form `f` comes before form `g`: a smaller lexeme id, or the same id
      and a smaller concept. */
  predicate FormLt(f: FormPlan, g: FormPlan) {
    f.diaclId < g.diaclId || (f.diaclId == g.diaclId && Order.StrLt(f.parameter, g.parameter))
  }

  /** The inner loop over the lexeme's concepts in ascending order. */
  function FormsOfLexeme(lid: int, lex: Lexemes.Lexeme): (r: seq<FormPlan>)
    ensures |r| == |lex.concepts|
    ensures forall f :: f in r ==>
      && f.diaclId == lid && f.parameter in lex.concepts && f == FormOf(lid, lex, f.parameter)
    ensures forall c :: c in lex.concepts ==> FormOf(lid, lex, c) in r
    ensures forall a, b :: 0 <= a < b < |r| ==> Order.StrLt(r[a].parameter, r[b].parameter)
  {
    Order.StrLtStrictTotal();
    var cs := Order.SortSet(lex.concepts, Order.StrLt);
    var r := seq(|cs|, i requires 0 <= i < |cs| => FormOf(lid, lex, cs[i]));
    FormsCoverConcepts(lid, lex, cs, r);
    r
  }

  /** A form per concept of `cs` covers every concept `cs` lists. */
  lemma FormsCoverConcepts(lid: int, lex: Lexemes.Lexeme, cs: seq<string>, r: seq<FormPlan>)
    requires forall c :: c in cs <==> c in lex.concepts
    requires |r| == |cs| && forall i :: 0 <= i < |cs| ==> r[i] == FormOf(lid, lex, cs[i])
    ensures forall c :: c in lex.concepts ==> FormOf(lid, lex, c) in r
  {
    forall c | c in lex.concepts
      ensures FormOf(lid, lex, c) in r
    {
      var i :| 0 <= i < |cs| && cs[i] == c;
      assert r[i] == FormOf(lid, lex, c);
    }
  }

  /** The outer loop over the lexemes whose ids are `ids`, in that order. */
  function EmitForms(ids: seq<int>, lexemes: map<int, Lexemes.Lexeme>): (r: seq<FormPlan>)
    requires forall i :: 0 <= i < |ids| ==> ids[i] in lexemes
    requires Order.Increasing(ids, Order.IntLt)
    ensures forall f :: f in r ==>
      && f.diaclId in ids && f.parameter in lexemes[f.diaclId].concepts
      && f == FormOf(f.diaclId, lexemes[f.diaclId], f.parameter)
    ensures forall i, c :: 0 <= i < |ids| && c in lexemes[ids[i]].concepts ==>
      FormOf(ids[i], lexemes[ids[i]], c) in r
    ensures forall a, b :: 0 <= a < b < |r| ==> FormLt(r[a], r[b])
    decreases |ids|
  {
    if |ids| == 0 then []
    else
      var head := FormsOfLexeme(ids[0], lexemes[ids[0]]);
      var rest := EmitForms(ids[1..], lexemes);
      assert forall i :: 0 < i < |ids| ==> ids[i] == ids[1..][i - 1];
      assert forall x :: x in ids[1..] ==> ids[0] < x;
      ConcatOrdered(head, rest, ids[0]);
      head + rest
  }

  lemma ConcatOrdered(head: seq<FormPlan>, rest: seq<FormPlan>, lid: int)
    requires forall f :: f in head ==> f.diaclId == lid
    requires forall f :: f in rest ==> lid < f.diaclId
    requires forall a, b :: 0 <= a < b < |head| ==> Order.StrLt(head[a].parameter, head[b].parameter)
    requires forall a, b :: 0 <= a < b < |rest| ==> FormLt(rest[a], rest[b])
    ensures forall a, b :: 0 <= a < b < |head + rest| ==> FormLt((head + rest)[a], (head + rest)[b])
  {
    var r := head + rest;
    forall a, b | 0 <= a < b < |r|
      ensures FormLt(r[a], r[b])
    {
      if b < |head| {
        assert r[a] == head[a] && r[b] == head[b];
      } else if a < |head| {
        assert r[a] == head[a] && r[b] == rest[b - |head|];
        assert r[a] in head && r[b] in rest;
      } else {
        assert r[a] == rest[a - |head|] && r[b] == rest[b - |head|];
      }
    }
  }

  /** The form loop of `cmd_makecldf` over `sorted(lexemes.items())`: exactly
      one form per lexeme and concept of that lexeme, in strictly ascending
      (lexeme id, concept) order, each carrying the lexeme's language, its
      id and the source ids of its source references. */
  function PlanForms(lexemes: map<int, Lexemes.Lexeme>): (r: seq<FormPlan>)
    ensures forall f :: f in r ==>
      && f.diaclId in lexemes && f.parameter in lexemes[f.diaclId].concepts
      && f.language == lexemes[f.diaclId].lang
      && f.value == lexemes[f.diaclId].transcription
      && f.source == SourceIds(lexemes[f.diaclId].sources)
      && f == FormOf(f.diaclId, lexemes[f.diaclId], f.parameter)
    ensures forall f :: f in r ==>
      && |f.source| == |lexemes[f.diaclId].sources|
      && forall i :: 0 <= i < |f.source| ==> f.source[i] == lexemes[f.diaclId].sources[i].0
    ensures forall lid, c :: lid in lexemes && c in lexemes[lid].concepts ==>
      exists f :: f in r && f.diaclId == lid && f.parameter == c
    ensures forall a, b :: 0 <= a < b < |r| ==> FormLt(r[a], r[b])
  {
    Order.IntLtStrictTotal();
    var ids := Order.SortSet(lexemes.Keys, Order.IntLt);
    var r := EmitForms(ids, lexemes);
    forall lid, c | lid in lexemes && c in lexemes[lid].concepts
      ensures exists f :: f in r && f.diaclId == lid && f.parameter == c
    {
      var i :| 0 <= i < |ids| && ids[i] == lid;
      assert FormOf(ids[i], lexemes[ids[i]], c) in r;
    }
    r
  }

  /** No two planned forms share a (lexeme id, concept) pair. */
  lemma {:induction false} FormsDistinctPairs(lexemes: map<int, Lexemes.Lexeme>)
    ensures var r := PlanForms(lexemes);
      forall a, b :: 0 <= a < b < |r| ==> (r[a].diaclId, r[a].parameter) != (r[b].diaclId, r[b].parameter)
  {
    var r := PlanForms(lexemes);
    forall a, b | 0 <= a < b < |r|
      ensures (r[a].diaclId, r[a].parameter) != (r[b].diaclId, r[b].parameter)
    {
      assert FormLt(r[a], r[b]);
      Order.StrLtIrreflexive(r[a].parameter);
    }
  }
}
