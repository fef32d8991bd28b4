/** The data flow of `cmd_makecldf`, from the parsed inputs to the records
    handed to the CLDF writer. */
module MakeCldf {
  import opened Wrappers
  import Dicts
  import Concepts
  import Strings
  import Lexemes
  import Languages
  import Forms

  /** What `cmd_makecldf` starts from once the raw files are read: the
      concept list, the curated language list, the parsed languages and
      lexemes of all word lists, the etymology items, and the Glottolog
      ISO lookup. */
  datatype Input = Input(
    conceptRows: seq<Concepts.ConceptRow>,
    listed: seq<Languages.ListedLanguage>,
    languages: map<int, Languages.Parsed>,
    lexemes: map<int, Lexemes.Lexeme>,
    etymology: seq<Lexemes.EtymologyItem>,
    byIso: map<string, string>)

  /** The records handed to `add_concept`, `add_language` and `add_forms_from_value`. */
  datatype Output = Output(
    concepts: seq<Concepts.ConceptRecord>,
    languages: seq<Languages.LanguageRecord>,
    forms: seq<Forms.FormPlan>)

  /** Every parsed language has the keys `parse_language` always writes. */
  ghost predicate WellParsed(languages: map<int, Languages.Parsed>) {
    forall lid :: lid in languages ==> Languages.BaseKeys <= languages[lid].Keys
  }

  /** The steps of `cmd_makecldf`, with the language loop reading the time
      frame under `timeFrameKey`: the program reads `ReadTimeFrameKey`,
      the corrected conversion `WrittenTimeFrameKey`. */
  function Build(inp: Input, timeFrameKey: string): (r: Result<Output, Lexemes.Error>)
    requires WellParsed(inp.languages)
    ensures r.Success? <==>
      Lexemes.Resolvable(Concepts.BuildConcepts(inp.conceptRows).conceptMap, inp.lexemes.Keys, inp.etymology)
    ensures r.Success? ==>
      && (forall a, b :: 0 <= a < b < |r.value.languages| ==> r.value.languages[a].id < r.value.languages[b].id)
      && (forall a, b :: 0 <= a < b < |r.value.forms| ==> Forms.FormLt(r.value.forms[a], r.value.forms[b]))
  {
    var table := Concepts.BuildConcepts(inp.conceptRows);
    match Lexemes.Annotate(table.conceptMap, inp.lexemes, inp.etymology)
    case Failure(e) => Failure(e)
    case Success(annotated) =>
      var kept := Lexemes.Retain(annotated);
      var keep := Lexemes.LanguageIds(kept);
      Success(Output(
        Concepts.ConceptRecords(table.concepts),
        Languages.PlanLanguages(inp.languages, keep, Languages.ListById(inp.listed),
                                Languages.GlottocodeMap(inp.listed), inp.byIso, timeFrameKey),
        Forms.PlanForms(kept)))
  }

  /** The lexemes the forms are planned from. */
  ghost function Kept(inp: Input): map<int, Lexemes.Lexeme> {
    var cm := Concepts.BuildConcepts(inp.conceptRows).conceptMap;
    var a := Lexemes.Annotate(cm, inp.lexemes, inp.etymology);
    if a.Success? then Lexemes.Retain(a.value) else map[]
  }

  /** The three record lists of a successful build. */
  lemma BuildParts(inp: Input, key: string)
    requires WellParsed(inp.languages)
    requires Build(inp, key).Success?
    ensures var table := Concepts.BuildConcepts(inp.conceptRows);
      && Build(inp, key).value.concepts == Concepts.ConceptRecords(table.concepts)
      && Build(inp, key).value.languages == Languages.PlanLanguages(
           inp.languages, Lexemes.LanguageIds(Kept(inp)), Languages.ListById(inp.listed),
           Languages.GlottocodeMap(inp.listed), inp.byIso, key)
      && Build(inp, key).value.forms == Forms.PlanForms(Kept(inp))
  {
  }

  /** As written, the conversion emits no time frame at all. */
  lemma ProgramDropsTimeFrames(inp: Input)
    requires WellParsed(inp.languages)
    requires forall lid :: lid in inp.languages ==> inp.languages[lid].Keys <= Languages.ParsedKeys
    requires Build(inp, Languages.ReadTimeFrameKey).Success?
    ensures forall lr :: lr in Build(inp, Languages.ReadTimeFrameKey).value.languages ==> lr.timeFrame.None?
  {
    BuildParts(inp, Languages.ReadTimeFrameKey);
    Languages.TimeFrameNeverEmitted(inp.languages, Lexemes.LanguageIds(Kept(inp)), Languages.ListById(inp.listed),
                                    Languages.GlottocodeMap(inp.listed), inp.byIso);
  }

  /** Corrected, the conversion emits every language with the time frame
      parsed for it. */
  lemma CorrectedCarriesTimeFrames(inp: Input)
    requires WellParsed(inp.languages)
    requires Build(inp, Languages.WrittenTimeFrameKey).Success?
    ensures forall lr :: lr in Build(inp, Languages.WrittenTimeFrameKey).value.languages ==>
      lr.id in inp.languages && lr.timeFrame == Languages.Get(inp.languages[lr.id], Languages.WrittenTimeFrameKey)
  {
    BuildParts(inp, Languages.WrittenTimeFrameKey);
    Languages.TimeFrameCarried(inp.languages, Lexemes.LanguageIds(Kept(inp)), Languages.ListById(inp.listed),
                               Languages.GlottocodeMap(inp.listed), inp.byIso);
  }

  /** A truthy value of `concept_map` is a truthy key of `concepts`, so it
      has a concept record. */
  lemma MappedConceptHasRecord(rows: seq<Concepts.ConceptRow>, d: int)
    requires d in Concepts.BuildConcepts(rows).conceptMap
    requires Strings.Truthy(Concepts.BuildConcepts(rows).conceptMap[d])
    ensures var table := Concepts.BuildConcepts(rows);
      var c := table.conceptMap[d];
      exists cr :: cr in Concepts.ConceptRecords(table.concepts) && cr.id == c && cr.concepticonId == c
  {
    var table := Concepts.BuildConcepts(rows);
    var c := table.conceptMap[d];
    Concepts.ConceptMapKeepsGreatest(rows);
    Concepts.ConceptKeysAscend(rows);
    var k :| 0 <= k < |rows| && rows[k].diaclId == d && rows[k].concepticonId == c;
    assert c in Dicts.KeysOf(table.concepts);
    var a :| 0 <= a < |table.concepts| && table.concepts[a].0 == c;
    assert table.concepts[a] in table.concepts;
    assert Concepts.ConceptRecord(c, table.concepts[a].1, c) in Concepts.ConceptRecords(table.concepts);
  }

  /** Starting from concept-less lexemes, every planned form names a concept
      that has a concept record. */
  lemma {:induction false} FormsUseRecordedConcepts(inp: Input, key: string)
    requires WellParsed(inp.languages)
    requires forall k :: k in inp.lexemes ==> inp.lexemes[k].concepts == {}
    requires Build(inp, key).Success?
    ensures forall f :: f in Build(inp, key).value.forms ==>
      exists cr :: cr in Build(inp, key).value.concepts && cr.id == f.parameter
  {
    var rows := inp.conceptRows;
    var cm := Concepts.BuildConcepts(rows).conceptMap;
    var kept := Kept(inp);
    Lexemes.RetainedIffConnected(cm, inp.lexemes, inp.etymology);
    BuildParts(inp, key);
    forall f | f in Build(inp, key).value.forms
      ensures exists cr :: cr in Build(inp, key).value.concepts && cr.id == f.parameter
    {
      assert f in Forms.PlanForms(kept);
      var it :| it in inp.etymology && it.wli in cm && Strings.Truthy(cm[it.wli])
        && f.diaclId in it.connected && cm[it.wli] == f.parameter;
      MappedConceptHasRecord(rows, it.wli);
    }
  }

  /** The languages planned for the language ids of `kept` are the parsed
      languages some form of `kept` belongs to. */
  lemma EmittedIffFormed(
    languages: map<int, Languages.Parsed>, kept: map<int, Lexemes.Lexeme>, lmap: map<int, Languages.ListedLanguage>,
    gmap: map<int, string>, byIso: map<string, string>, key: string)
    requires WellParsed(languages)
    requires forall k :: k in kept ==> kept[k].concepts != {}
    ensures var keep := Lexemes.LanguageIds(kept);
      var rs := Languages.PlanLanguages(languages, keep, lmap, gmap, byIso, key);
      forall lid :: (exists lr :: lr in rs && lr.id == lid) <==>
        lid in languages && exists f :: f in Forms.PlanForms(kept) && f.language == lid
  {
    var keep := Lexemes.LanguageIds(kept);
    var forms := Forms.PlanForms(kept);
    forall lid | lid in keep
      ensures exists f :: f in forms && f.language == lid
    {
      var k :| k in kept && kept[k].lang == lid;
      var c :| c in kept[k].concepts;
      var f :| f in forms && f.diaclId == k && f.parameter == c;
    }
    forall f | f in forms
      ensures f.language in keep
    {
      assert f.diaclId in kept;
    }
  }

  /** A parsed language is emitted exactly when some planned form belongs
      to it. */
  lemma LanguagesAreThoseOfForms(inp: Input, key: string)
    requires WellParsed(inp.languages)
    requires Build(inp, key).Success?
    ensures forall lid :: (exists lr :: lr in Build(inp, key).value.languages && lr.id == lid) <==>
      lid in inp.languages && exists f :: f in Build(inp, key).value.forms && f.language == lid
  {
    BuildParts(inp, key);
    KeptHaveConcepts(inp);
    OutputLanguagesAreThoseOfForms(Build(inp, key).value, inp.languages, Kept(inp), Languages.ListById(inp.listed),
                                   Languages.GlottocodeMap(inp.listed), inp.byIso, key);
  }

  /** Every lexeme the forms are planned from has a concept. */
  lemma KeptHaveConcepts(inp: Input)
    ensures forall k :: k in Kept(inp) ==> Kept(inp)[k].concepts != {}
  {
  }

  /** `EmittedIffFormed` read on an output assembled from the same parts. */
  lemma OutputLanguagesAreThoseOfForms(
    out: Output, languages: map<int, Languages.Parsed>, kept: map<int, Lexemes.Lexeme>,
    lmap: map<int, Languages.ListedLanguage>, gmap: map<int, string>, byIso: map<string, string>, key: string)
    requires WellParsed(languages)
    requires forall k :: k in kept ==> kept[k].concepts != {}
    requires out.languages == Languages.PlanLanguages(languages, Lexemes.LanguageIds(kept), lmap, gmap, byIso, key)
    requires out.forms == Forms.PlanForms(kept)
    ensures forall lid :: (exists lr :: lr in out.languages && lr.id == lid) <==>
      lid in languages && exists f :: f in out.forms && f.language == lid
  {
    EmittedIffFormed(languages, kept, lmap, gmap, byIso, key);
  }
}
