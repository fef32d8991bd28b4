# DiACL lexibank dataset: a Dafny model of `cmd_makecldf` and the tree helpers

The lexibank DiACL dataset turns the Diachronic Atlas of Comparative
Linguistics into a CLDF wordlist. This project models the data logic of
that conversion as pure Dafny functions and proves what the code promises.
It covers five steps:

- **Language tree helpers.** `lids` and `iternodes` walk the JSON language
  taxonomy in preorder. `parse_tree` keys each node's depth, name and
  language ids by `NodeId`.
- **Concept table.** The concept list is sorted by CONCEPTICON_ID and
  grouped with `groupby`. It is then folded into the `concepts`
  OrderedDict (CONCEPTICON_ID to gloss) and the `concept_map` dict
  (DIACL_ID to CONCEPTICON_ID).
- **Concept annotation.** The etymology word-list items attach concepts to
  lexemes. The two `KeyError`s the loop can raise are modelled as errors.
  Lexemes left without a concept are then dropped.
- **Language selection.** The parsed languages are emitted when a retained
  lexeme uses them, in ascending id order. A truthy coordinate in the
  curated language list overrides the parsed one. The Glottocode comes
  from the curated list or, failing that, from the ISO lookup.
- **Form planning.** One form record is planned per retained lexeme and
  concept, ordered by lexeme id and then by concept.

The modules follow the program's structure:

- `Wrappers`: `Option` and `Result`.
- `Strings`: Python truthiness of text values.
- `Order`: Python's string order as lexicographic code-point order, and
  `sorted` on a set.
- `Dicts`: Python dict and OrderedDict assignment. The last write wins, and
  an OrderedDict keeps the position of a key's first insertion.
- `LanguageTree`: `lids`, `iternodes` and `parse_tree`.
- `Concepts`: the concept table and the concept records.
- `Lexemes`: annotation and filtering.
- `Languages`: `parse_language`'s keys, `lmap`, `glottocode_map` and the
  language loop.
- `Forms`: the form loop.
- `MakeCldf`: the whole data flow, with end-to-end properties.

Modelling choices:

- A CONCEPTICON_ID is a string. Python truthiness makes only the empty
  string falsy.
- `sorted(self.concepts, key=...)` is a stable sort. It is modelled as an
  insertion sort and proved to keep each key's rows in list order.
- A parsed language is a map from key to element text. This keeps the key
  names the code reads and writes visible.
- `MakeCldf.Build` takes the key the language loop reads the time frame
  under. The program reads `time_frame` (`Languages.ReadTimeFrameKey`).
  The corrected conversion reads `time-frame` (`Languages.WrittenTimeFrameKey`),
  the key `parse_language` writes (see Findings).
- The code keys `parse_tree` by `NodeId` alone, while its doc comment
  speaks of `(NodeName, NodeId)` pairs. The model follows the code.

## Model

| member | source | states |
|---|---|---|
| LanguageTree.LidsArePreorderLangs | lexibank_diacl.py:235-240 | `lids(node)` yields exactly the `FkLanguageId`s of the nodes `iternodes` visits, in the same preorder. Its length is the number of nodes that carry an id. |
| LanguageTree.LidsChildSlice | lexibank_diacl.py:235-240 | `lids(node)` is the node's own id, then each child's `lids` in child order. Each child's ids are a contiguous slice at a stated offset. |
| LanguageTree.IterNodesChildBlock | lexibank_diacl.py:243-247 | `iternodes` yields the node first at its level, then each child's subtree as one contiguous block, one level deeper, in child order. |
| LanguageTree.IterNodesSize | lexibank_diacl.py:243-247 | `iternodes` yields exactly one pair per node of the subtree. |
| LanguageTree.IteratedNodeHasPath | lexibank_diacl.py:243-247 | Every yielded pair is a node reachable by a child path, and its level is the start level plus the path length. |
| LanguageTree.PathNodeIsIterated | lexibank_diacl.py:243-247 | Every node reachable by a child path is yielded, at the start level plus its depth. |
| LanguageTree.ParseTree | lexibank_diacl.py:250-257 | The keys are exactly the `NodeId`s of the tree. When an id repeats, the entry comes from the node visited last in preorder: its level, `NodeName` and `lids`. |
| LanguageTree.ParseTreeEntryIsNode | lexibank_diacl.py:250-257 | Every key's entry is that of a node with this id: its depth from the root (from 0), its name and its language ids. |
| LanguageTree.ParseTreeCoversNodes | lexibank_diacl.py:250-257 | Every node of the tree has its `NodeId` among the keys. |
| LanguageTree.ParseTreeRoot | lexibank_diacl.py:250-257 | If no other node shares the root's id, the root's entry is at level 0 and lists all language ids of the tree in preorder. |
| Dicts.AssignAll | lexibank_diacl.py:113-114 | A plain dict built by successive assignments has exactly the assigned keys, and each key holds the value of its last assignment. This covers the two comprehensions of lines 113-114, `concept_map` (line 123) and the tree map of `parse_tree` (line 256). |
| Dicts.OdBuildKeys | lexibank_diacl.py:116-122 | An OrderedDict built by successive assignments has exactly the assigned keys, each once. |
| Dicts.OdBuildValues | lexibank_diacl.py:116-122 | Each OrderedDict entry holds the value of its key's last assignment. |
| Dicts.OdBuildOrder | lexibank_diacl.py:116-122 | OrderedDict entries come in the order in which their keys were first assigned. |
| Order.SortSet | lexibank_diacl.py:180 | `sorted` of a set returns its elements, each once, in strictly ascending order. |
| Concepts.SortRows | lexibank_diacl.py:118 | The sorted concept list is a permutation of the list, in non-decreasing CONCEPTICON_ID order. Each key's rows keep their list order (the sort is stable). |
| Concepts.GroupByVisitsEveryRow | lexibank_diacl.py:117-121 | The nested loop over `groupby`'s groups visits every row once, in input order, paired with its own key. |
| Concepts.GroupByRuns | lexibank_diacl.py:117-121 | `groupby` yields non-empty runs of equal keys, and neighbouring groups have different keys. |
| Concepts.GroupKeysAscend | lexibank_diacl.py:117-121 | On sorted rows, group keys are strictly ascending, so each key forms exactly one group. |
| Concepts.ConceptKeysAscend | lexibank_diacl.py:116-122 | `concepts` has exactly one key per distinct CONCEPTICON_ID of the list, in strictly ascending order. |
| Concepts.ConceptGlossIsLast | lexibank_diacl.py:116-122 | Each `concepts` entry holds the gloss of the last row in list order with that CONCEPTICON_ID. |
| Concepts.ConceptMapKeepsGreatest | lexibank_diacl.py:116-123 | `concept_map` has one key per DIACL_ID and maps it to one of that id's CONCEPTICON_IDs. When several are listed, it keeps the greatest. |
| Concepts.ConceptRecords | lexibank_diacl.py:153-155 | A concept record is written exactly for each truthy `concepts` key, with ID and Concepticon_ID set to the key and Name set to its gloss. When the keys ascend, the records follow in strictly ascending ID order. |
| Concepts.ConceptRecordsAscend | lexibank_diacl.py:153-155 | The records written from the concept list strictly ascend by ID, so no concept is written twice. |
| Lexemes.AddConcept | lexibank_diacl.py:148-149 | Adding a concept to connected lexemes succeeds iff every connected id is a lexeme. Only those lexemes gain the concept, and nothing else changes. A miss raises the `KeyError` of the first id of the list that is not a lexeme (`FirstMiss`), as the loop of line 149 stops there. |
| Lexemes.Annotate | lexibank_diacl.py:143-149 | Annotation succeeds iff every item id is in `concept_map` and, for truthy concepts, every connected id is a lexeme. On success the keys are unchanged. Each lexeme gains exactly the truthy concepts of the items that list it; other fields and old concepts are kept. On failure the error is the one raised at the first item that does not resolve (`RaisedAt`): the `KeyError` of its id when the id is not in `concept_map`, else that of its first connected id that is not a lexeme. |
| Lexemes.AnnotateOrderIndependent | lexibank_diacl.py:143-149 | The outcome of a successful annotation does not depend on the order or repetition of the items. |
| Lexemes.RetainedIffConnected | lexibank_diacl.py:143-151 | From concept-less lexemes, the filter after annotation keeps a lexeme iff some item with a truthy concept lists it. The kept lexeme is the parsed one with exactly those concepts. |
| Languages.ParseLanguage | lexibank_diacl.py:194-206 | `parse_language` always writes the five base keys. It writes `latitude`/`longitude` iff there is a focal point, and `time-frame` ("from-until") iff there is a time frame. No other key is written. |
| Languages.ListByIdHoldsLastRow | lexibank_diacl.py:114 | `lmap` has a key per listed id, holding the last row with that id. |
| Languages.GlottocodeMapKeys | lexibank_diacl.py:113 | `glottocode_map` has a key iff some listed row with that id has a truthy Glottocode. Its value is the Glottocode of the last such row. |
| Languages.GlottocodeOfLanguage | lexibank_diacl.py:170-172 | A language gets the Glottocode of the last curated row with its id and a truthy Glottocode. Without such a row it gets the ISO lookup, which misses when the ISO code is `None` or unknown. |
| Languages.LanguageOf | lexibank_diacl.py:163-177 | The record carries the id, name and ISO code. Each coordinate is the curated one when truthy, otherwise the parsed one (`None` if absent). The time frame is read under the given key. |
| Languages.PlanLanguages | lexibank_diacl.py:160-177 | A language record is emitted iff the language is parsed and its id is in `lids`. Records come in strictly ascending id order. |
| Languages.CoordinatesOverrideWhenTruthy | lexibank_diacl.py:163-175 | A coordinate from the last curated row for the id replaces the parsed one exactly when it is truthy. Otherwise the parsed value stays. |
| Languages.TimeFrameNeverEmitted | lexibank_diacl.py:176 | As written, every emitted language has time frame `None` whenever the parsed languages only have `parse_language`'s keys. |
| Languages.TimeFrameLost | lexibank_diacl.py:176 | A language parsed with time frame 1000-1200 is emitted with time frame `None`. |
| Languages.TimeFrameCarried | lexibank_diacl.py:203-205 | Read under `time-frame`, every emitted language carries its parsed time frame. |
| Languages.TimeFrameKept | lexibank_diacl.py:203-205 | Read under `time-frame`, the same language is emitted with time frame "1000-1200". |
| Forms.FormsOfLexeme | lexibank_diacl.py:180-191 | One form per concept of the lexeme, with strictly ascending concepts. |
| Forms.PlanForms | lexibank_diacl.py:179-191 | Each (retained lexeme, concept) pair gets a form. Forms come in strictly ascending (lexeme id, concept) order. Each form carries the lexeme's language, its transcription as Value and the lexeme id. Its `Source` holds, in order, the first component of each of the lexeme's source references. |
| Forms.FormsDistinctPairs | lexibank_diacl.py:179-191 | No two forms share a (lexeme id, concept) pair. |
| MakeCldf.Build | lexibank_diacl.py:112-191 | For any time-frame key, the conversion succeeds iff the annotation's lookups all succeed. Languages then come in ascending id order, and forms in ascending (lexeme, concept) order. |
| MakeCldf.ProgramDropsTimeFrames | lexibank_diacl.py:176 | With the key the program reads, no language of a successful conversion carries a time frame. |
| MakeCldf.CorrectedCarriesTimeFrames | lexibank_diacl.py:203-205 | With the key `parse_language` writes, every language of a successful conversion carries its parsed time frame. |
| MakeCldf.MappedConceptHasRecord | lexibank_diacl.py:116-155 | A truthy `concept_map` value is a `concepts` key, so it gets a concept record. |
| MakeCldf.FormsUseRecordedConcepts | lexibank_diacl.py:143-191 | From concept-less lexemes, every form's Parameter_ID is the ID of a written concept record. |
| MakeCldf.EmittedIffFormed | lexibank_diacl.py:160-191 | With `lids` taken as the language ids of the retained lexemes, a language is emitted iff it is parsed and some planned form has it as Language_ID. |
| MakeCldf.LanguagesAreThoseOfForms | lexibank_diacl.py:160-191 | The same, for the outputs of the whole conversion. |

## Left out

- Download (`cmd_download`, `_download_json`, `_url`, lines 70-110): network access and file writes.
- XML, gzip and JSON reading, plus `_get_text`, `parse_lexeme` and `parse_source` (lines 18-22, 125-138, 208-232). Their outputs are the model's inputs.
- Collecting parsed records into the `languages`, `lexemes` and `sources` dicts across word lists (lines 129-138): the collected maps are inputs.
- Parsing ids with `int()`: ids are already integers.
- The writer's side effects: the records the writer would receive are returned instead.
- Sorting and adding sources (lines 131-133, 157-158): this is writer input only, with no data logic of its own.
- The `print` of a skipped word-list item (line 145): it is output only.
- The Glottolog ISO lookup `glottocode_by_iso` is foreign code. It is a parameter, a map from ISO code to Glottocode.
- pylexibank's processing inside `add_forms_from_value` is not part of this model. The model stops at the values passed to it.
- The attrs record classes (`DiaclLexeme`, `DiaclCognate`, `DiaclLanguage`) declare fields only.
- Cognate clustering is only described in a comment and is not implemented in the code.
- JSON `null` values in the language tree (lines 235-247) are not modelled. The program treats an `FkLanguageId` key holding `null` as present, so `lids` and `parse_tree` yield `None`. A `children` key holding `null` makes the program raise `TypeError`. `LanguageTree.Node` holds an `FkLanguageId` only as an integer or as absent, and its `children` only as a list.

## Findings

| source | as written | input that shows it | evidently intended | confidence | as-written member | corrected member |
|---|---|---|---|---|---|---|
| lexibank_diacl.py:176 | `time_frame=lang.get("time_frame")` reads the key `time_frame`, but `parse_language` (line 205) writes `time-frame`, so the emitted time frame is always `None` | a language whose `time-frame` element runs from 1000 to 1200 | emit the parsed time frame "1000-1200" | medium, not executed | Languages.TimeFrameLost | Languages.TimeFrameKept |

`Languages.TimeFrameNeverEmitted` proves the as-written behaviour for every
input. `Languages.TimeFrameCarried` proves the corrected behaviour for every
input. `MakeCldf.ProgramDropsTimeFrames` and
`MakeCldf.CorrectedCarriesTimeFrames` state the same two behaviours for the
whole conversion.
