/** Choosing the languages to emit and the values of their records: the
    parsed language dictionaries, the `lmap` and `glottocode_map` tables
    built from the curated language list, and the loop over
    `sorted(languages.items())`. */
module Languages {
  import opened Wrappers
  import Order
  import Dicts
  import Strings

  /** A parsed language: the dictionary `parse_language` returns, from key
      to element text (`None` when the element is missing). */
  type Parsed = map<string, Option<string>>

  /** The `focal-point` element of a language: its two coordinates. */
  datatype FocalPoint = FocalPoint(latitude: Option<string>, longitude: Option<string>)

  /** The `time-frame` element of a language: its two bounds. */
  datatype TimeFrame = TimeFrame(start: Option<string>, until: Option<string>)

  /** One row of the curated language list; its text columns are "" when empty. */
  datatype ListedLanguage = ListedLanguage(id: int, glottocode: string, latitude: string, longitude: string)

  /** The values handed to `add_language`. */
  datatype LanguageRecord = LanguageRecord(
    id: int,
    name: Option<string>,
    glottocode: Option<string>,
    iso: Option<string>,
    latitude: Option<string>,
    longitude: Option<string>,
    timeFrame: Option<string>)

  /** The keys `parse_language` writes. */
  const BaseKeys: set<string> := {"name", "alternative-names", "note", "native-speakers", "iso-693-3"}
  const ParsedKeys: set<string> := BaseKeys + {"latitude", "longitude", "time-frame"}

  /** Python's `str.format` of an element text: `None` prints as "None". */
  function Text(o: Option<string>): string {
    if o.None? then "None" else o.value
  }

  /** `parse_language`, given the texts the XML element holds. */
  function ParseLanguage(
    name: Option<string>, altNames: Option<string>, note: Option<string>, speakers: Option<string>,
    iso: Option<string>, fp: Option<FocalPoint>, tf: Option<TimeFrame>): (d: Parsed)
    ensures d.Keys <= ParsedKeys && BaseKeys <= d.Keys
    ensures d["name"] == name && d["iso-693-3"] == iso
    ensures "latitude" in d <==> fp.Some?
    ensures "longitude" in d <==> fp.Some?
    ensures fp.Some? ==> d["latitude"] == fp.value.latitude && d["longitude"] == fp.value.longitude
    ensures "time-frame" in d <==> tf.Some?
    ensures tf.Some? ==> d["time-frame"] == Some(Text(tf.value.start) + "-" + Text(tf.value.until))
  {
    var base := map["name" := name, "alternative-names" := altNames, "note" := note,
                     "native-speakers" := speakers, "iso-693-3" := iso];
    var withPoint := if fp.Some? then base["latitude" := fp.value.latitude]["longitude" := fp.value.longitude] else base;
    if tf.Some? then withPoint["time-frame" := Some(Text(tf.value.start) + "-" + Text(tf.value.until))] else withPoint
  }

  /** Looking up `key` with a default: a missing key and a missing text both give `None`. */
  function Get(d: Parsed, key: string): Option<string> {
    if key in d then d[key] else None
  }

  /** The assignments building `lmap`: every curated row under its id. */
  function ListByIdAssignments(rows: seq<ListedLanguage>): seq<(int, ListedLanguage)> {
    seq(|rows|, i requires 0 <= i < |rows| => (rows[i].id, rows[i]))
  }

  function ListById(rows: seq<ListedLanguage>): map<int, ListedLanguage> {
    Dicts.AssignAll(ListByIdAssignments(rows))
  }

  /** The assignment a curated row contributes to `glottocode_map`: none
      when its Glottocode is falsy. */
  function GlottocodeOfRow(row: ListedLanguage): seq<(int, string)> {
    if Strings.Truthy(row.glottocode) then [(row.id, row.glottocode)] else []
  }

  /** The assignments building `glottocode_map`, row by row. */
  function GlottocodeAssignments(rows: seq<ListedLanguage>): seq<(int, string)>
    decreases |rows|
  {
    if |rows| == 0 then [] else GlottocodeOfRow(rows[0]) + GlottocodeAssignments(rows[1..])
  }

  lemma {:induction false} GlottocodeAssignmentsSnoc(rows: seq<ListedLanguage>)
    requires |rows| > 0
    ensures GlottocodeAssignments(rows) ==
      GlottocodeAssignments(rows[..|rows| - 1]) + GlottocodeOfRow(rows[|rows| - 1])
    decreases |rows|
  {
    if |rows| > 1 {
      GlottocodeAssignmentsSnoc(rows[1..]);
      assert rows[1..][..|rows| - 2] == rows[..|rows| - 1][1..];
    }
  }

  /** `glottocode_map`: the id of every curated row with a truthy Glottocode,
      mapped to that Glottocode, later rows overwriting earlier ones. */
  function GlottocodeMap(rows: seq<ListedLanguage>): map<int, string> {
    Dicts.AssignAll(GlottocodeAssignments(rows))
  }

  /** The row of the list a key of `lmap` holds: the last row with that id. */
  lemma {:induction false} ListByIdHoldsLastRow(rows: seq<ListedLanguage>, lid: int)
    ensures lid in ListById(rows) <==> exists i :: 0 <= i < |rows| && rows[i].id == lid
    ensures lid in ListById(rows) ==> exists i ::
      && 0 <= i < |rows| && rows[i].id == lid && ListById(rows)[lid] == rows[i]
      && forall j :: i < j < |rows| ==> rows[j].id != lid
  {
    var ps := ListByIdAssignments(rows);
    if lid in ListById(rows) {
      Dicts.LastAssignmentExists(ps, lid);
      var i :| Dicts.IsLast(ps, i) && ps[i].0 == lid;
      forall j | i < j < |rows|
        ensures rows[j].id != lid
      {
        assert ps[i + 1..][j - i - 1] == ps[j];
      }
    } else {
      forall i | 0 <= i < |rows|
        ensures rows[i].id != lid
      {
        assert ps[i].0 == rows[i].id;
      }
    }
  }

  /** The last curated row updates the map the earlier rows build. */
  lemma GlottocodeMapSnoc(rows: seq<ListedLanguage>)
    requires |rows| > 0
    ensures var x := rows[|rows| - 1];
      GlottocodeMap(rows) ==
        if Strings.Truthy(x.glottocode) then GlottocodeMap(rows[..|rows| - 1])[x.id := x.glottocode]
        else GlottocodeMap(rows[..|rows| - 1])
  {
    var x := rows[|rows| - 1];
    var ps := GlottocodeAssignments(rows[..|rows| - 1]);
    GlottocodeAssignmentsSnoc(rows);
    if Strings.Truthy(x.glottocode) {
      assert GlottocodeAssignments(rows) == ps + [(x.id, x.glottocode)];
      Dicts.AssignAllSnoc(ps, (x.id, x.glottocode));
    } else {
      assert GlottocodeAssignments(rows) == ps;
    }
  }

  /** Row `i` is the last row of the curated list with id `lid` and a truthy Glottocode. */
  ghost predicate LastTruthyGlottocode(rows: seq<ListedLanguage>, lid: int, i: int) {
    && 0 <= i < |rows| && rows[i].id == lid && Strings.Truthy(rows[i].glottocode)
    && forall j :: i < j < |rows| && rows[j].id == lid ==> !Strings.Truthy(rows[j].glottocode)
  }

  /** `m` has a key for exactly the ids of the rows with a truthy
      Glottocode, and holds the Glottocode of the last such row. */
  ghost predicate HoldsLastTruthy(rows: seq<ListedLanguage>, lid: int, m: map<int, string>) {
    && (lid in m <==> exists i :: 0 <= i < |rows| && rows[i].id == lid && Strings.Truthy(rows[i].glottocode))
    && (lid in m ==> exists i :: LastTruthyGlottocode(rows, lid, i))
    && (forall i :: LastTruthyGlottocode(rows, lid, i) ==> lid in m && m[lid] == rows[i].glottocode)
  }

  /** Adding the assignment of one more row keeps `HoldsLastTruthy`. */
  lemma HoldsLastTruthySnoc(rows: seq<ListedLanguage>, lid: int, m0: map<int, string>, m: map<int, string>)
    requires |rows| > 0
    requires HoldsLastTruthy(rows[..|rows| - 1], lid, m0)
    requires var x := rows[|rows| - 1];
      m == if Strings.Truthy(x.glottocode) then m0[x.id := x.glottocode] else m0
    ensures HoldsLastTruthy(rows, lid, m)
  {
    var n := |rows| - 1;
    var x := rows[n];
    if x.id == lid && Strings.Truthy(x.glottocode) {
      LastRowHits(rows, lid);
    } else {
      LastRowMisses(rows, lid, m0);
    }
  }

  /** When the last row has id `lid` and a truthy Glottocode, it is the last such row. */
  lemma LastRowHits(rows: seq<ListedLanguage>, lid: int)
    requires |rows| > 0 && rows[|rows| - 1].id == lid && Strings.Truthy(rows[|rows| - 1].glottocode)
    ensures LastTruthyGlottocode(rows, lid, |rows| - 1)
    ensures forall i :: LastTruthyGlottocode(rows, lid, i) ==> i == |rows| - 1
  {
  }

  /** When the last row does not assign `lid`, the rows before it decide. */
  lemma LastRowMisses(rows: seq<ListedLanguage>, lid: int, m0: map<int, string>)
    requires |rows| > 0 && !(rows[|rows| - 1].id == lid && Strings.Truthy(rows[|rows| - 1].glottocode))
    requires HoldsLastTruthy(rows[..|rows| - 1], lid, m0)
    ensures HoldsLastTruthy(rows, lid, m0)
  {
    var n := |rows| - 1;
    var init := rows[..n];
    if lid in m0 {
      var i :| LastTruthyGlottocode(init, lid, i);
      assert init[i] == rows[i];
      assert LastTruthyGlottocode(rows, lid, i);
    }
    forall i | 0 <= i < |rows| && rows[i].id == lid && Strings.Truthy(rows[i].glottocode)
      ensures lid in m0
    {
      assert init[i] == rows[i];
    }
    forall i | LastTruthyGlottocode(rows, lid, i)
      ensures lid in m0 && m0[lid] == rows[i].glottocode
    {
      assert init[i] == rows[i];
      assert LastTruthyGlottocode(init, lid, i);
    }
  }

  /** `glottocode_map` has a key for exactly the ids of the rows with a
      truthy Glottocode, and holds the Glottocode of the last such row. */
  lemma {:induction false} GlottocodeMapKeys(rows: seq<ListedLanguage>, lid: int)
    ensures lid in GlottocodeMap(rows) <==>
      exists i :: 0 <= i < |rows| && rows[i].id == lid && Strings.Truthy(rows[i].glottocode)
    ensures lid in GlottocodeMap(rows) ==> exists i :: LastTruthyGlottocode(rows, lid, i)
    ensures forall i :: LastTruthyGlottocode(rows, lid, i) ==>
      lid in GlottocodeMap(rows) && GlottocodeMap(rows)[lid] == rows[i].glottocode
    decreases |rows|
  {
    if |rows| > 0 {
      var init := rows[..|rows| - 1];
      GlottocodeMapKeys(init, lid);
      GlottocodeMapSnoc(rows);
      HoldsLastTruthySnoc(rows, lid, GlottocodeMap(init), GlottocodeMap(rows));
    }
  }

  /** The Glottocode of an emitted language: the curated one when the list
      has one, else the Glottolog lookup by ISO code (which misses on `None`). */
  function Glottocode(lid: int, gmap: map<int, string>, byIso: map<string, string>, iso: Option<string>): (g: Option<string>)
  {
    if lid in gmap then Some(gmap[lid])
    else if iso.Some? && iso.value in byIso then Some(byIso[iso.value])
    else None
  }

  /** The Glottocode an emitted language receives is that of the last
      curated row with its id and a truthy Glottocode; without such a row it
      is the lookup of its ISO code, which misses on `None` or an unknown code. */
  lemma GlottocodeOfLanguage(rows: seq<ListedLanguage>, lid: int, byIso: map<string, string>, iso: Option<string>)
    ensures var g := Glottocode(lid, GlottocodeMap(rows), byIso, iso);
      && (forall i :: LastTruthyGlottocode(rows, lid, i) ==> g == Some(rows[i].glottocode))
      && ((forall i :: 0 <= i < |rows| && rows[i].id == lid ==> !Strings.Truthy(rows[i].glottocode)) ==>
            g == if iso.Some? && iso.value in byIso then Some(byIso[iso.value]) else None)
  {
    GlottocodeMapKeys(rows, lid);
  }

  /** The curated row of `lid` overwrites each coordinate of `lang` it holds truthy. */
  function Override(lang: Parsed, lid: int, lmap: map<int, ListedLanguage>): Parsed {
    if lid !in lmap then lang
    else
      var withLat := if Strings.Truthy(lmap[lid].latitude) then lang["latitude" := Some(lmap[lid].latitude)] else lang;
      if Strings.Truthy(lmap[lid].longitude) then withLat["longitude" := Some(lmap[lid].longitude)] else withLat
  }

  /** The record `add_language` receives for language `lid`, reading the
      time frame under `timeFrameKey`. */
  function LanguageOf(
    lid: int, lang: Parsed, lmap: map<int, ListedLanguage>, gmap: map<int, string>,
    byIso: map<string, string>, timeFrameKey: string): (r: LanguageRecord)
    requires "name" in lang && "iso-693-3" in lang
    ensures r.id == lid && r.name == lang["name"] && r.iso == lang["iso-693-3"]
    ensures r.glottocode == Glottocode(lid, gmap, byIso, lang["iso-693-3"])
    ensures r.latitude ==
      if lid in lmap && Strings.Truthy(lmap[lid].latitude) then Some(lmap[lid].latitude) else Get(lang, "latitude")
    ensures r.longitude ==
      if lid in lmap && Strings.Truthy(lmap[lid].longitude) then Some(lmap[lid].longitude) else Get(lang, "longitude")
    ensures timeFrameKey !in {"latitude", "longitude"} ==> r.timeFrame == Get(lang, timeFrameKey)
  {
    var d := Override(lang, lid, lmap);
    LanguageRecord(lid, d["name"], Glottocode(lid, gmap, byIso, d["iso-693-3"]), d["iso-693-3"],
                   Get(d, "latitude"), Get(d, "longitude"), Get(d, timeFrameKey))
  }

  /** Every language that may be emitted has the name and ISO keys the loop reads. */
  ghost predicate Emittable(languages: map<int, Parsed>, keep: set<int>) {
    forall lid :: lid in languages && lid in keep ==> "name" in languages[lid] && "iso-693-3" in languages[lid]
  }

  /** The loop body over the ids in `ids`, in that order. */
  function EmitIn(
    ids: seq<int>, languages: map<int, Parsed>, keep: set<int>, lmap: map<int, ListedLanguage>,
    gmap: map<int, string>, byIso: map<string, string>, timeFrameKey: string): (rs: seq<LanguageRecord>)
    requires forall i :: 0 <= i < |ids| ==> ids[i] in languages
    requires Order.Increasing(ids, Order.IntLt)
    requires Emittable(languages, keep)
    ensures forall r :: r in rs ==>
      && r.id in ids && r.id in keep
      && r == LanguageOf(r.id, languages[r.id], lmap, gmap, byIso, timeFrameKey)
    ensures forall i :: 0 <= i < |ids| && ids[i] in keep ==>
      LanguageOf(ids[i], languages[ids[i]], lmap, gmap, byIso, timeFrameKey) in rs
    ensures forall a, b :: 0 <= a < b < |rs| ==> rs[a].id < rs[b].id
    decreases |ids|
  {
    if |ids| == 0 then []
    else
      var rest := EmitIn(ids[1..], languages, keep, lmap, gmap, byIso, timeFrameKey);
      var lid := ids[0];
      assert forall i :: 0 < i < |ids| ==> ids[i] == ids[1..][i - 1];
      assert forall x :: x in ids[1..] ==> lid < x;
      if lid in keep then
        var r := LanguageOf(lid, languages[lid], lmap, gmap, byIso, timeFrameKey);
        ConsAscending(r, rest);
        [r] + rest
      else rest
  }

  /** A record with a smaller id than all of `rest` keeps ids ascending in front of it. */
  lemma ConsAscending(r: LanguageRecord, rest: seq<LanguageRecord>)
    requires forall x :: x in rest ==> r.id < x.id
    requires forall a, b :: 0 <= a < b < |rest| ==> rest[a].id < rest[b].id
    ensures forall a, b :: 0 <= a < b < |[r] + rest| ==> ([r] + rest)[a].id < ([r] + rest)[b].id
  {
    var rs := [r] + rest;
    forall a, b | 0 <= a < b < |rs|
      ensures rs[a].id < rs[b].id
    {
      assert rs[b] == rest[b - 1];
      if a > 0 {
        assert rs[a] == rest[a - 1];
      }
    }
  }

  /** The loop over `sorted(languages.items())`: one record per parsed
      language whose id is in `keep`, in ascending id order. */
  function PlanLanguages(
    languages: map<int, Parsed>, keep: set<int>, lmap: map<int, ListedLanguage>,
    gmap: map<int, string>, byIso: map<string, string>, timeFrameKey: string): (rs: seq<LanguageRecord>)
    requires Emittable(languages, keep)
    ensures forall lid :: (exists r :: r in rs && r.id == lid) <==> lid in languages && lid in keep
    ensures forall r :: r in rs ==>
      && r.id in languages && r.id in keep
      && r == LanguageOf(r.id, languages[r.id], lmap, gmap, byIso, timeFrameKey)
    ensures forall a, b :: 0 <= a < b < |rs| ==> rs[a].id < rs[b].id
  {
    Order.IntLtStrictTotal();
    var ids := Order.SortSet(languages.Keys, Order.IntLt);
    var rs := EmitIn(ids, languages, keep, lmap, gmap, byIso, timeFrameKey);
    forall lid | lid in languages && lid in keep
      ensures exists r :: r in rs && r.id == lid
    {
      var i :| 0 <= i < |ids| && ids[i] == lid;
      assert LanguageOf(ids[i], languages[ids[i]], lmap, gmap, byIso, timeFrameKey) in rs;
    }
    rs
  }

  /** Row `i` is the last row of the curated list with id `lid`. */
  ghost predicate LastRow(rows: seq<ListedLanguage>, lid: int, i: int) {
    0 <= i < |rows| && rows[i].id == lid && forall j :: i < j < |rows| ==> rows[j].id != lid
  }

  /** A coordinate of the curated list replaces the parsed one exactly when
      the list's last row for the id has it truthy; otherwise the parsed
      value (or `None`) is kept. */
  lemma CoordinatesOverrideWhenTruthy(
    rows: seq<ListedLanguage>, lid: int, lang: Parsed, gmap: map<int, string>,
    byIso: map<string, string>, timeFrameKey: string)
    requires "name" in lang && "iso-693-3" in lang
    ensures var r := LanguageOf(lid, lang, ListById(rows), gmap, byIso, timeFrameKey);
      && (forall i :: LastRow(rows, lid, i) && Strings.Truthy(rows[i].latitude) ==>
            r.latitude == Some(rows[i].latitude))
      && (forall i :: LastRow(rows, lid, i) && Strings.Truthy(rows[i].longitude) ==>
            r.longitude == Some(rows[i].longitude))
      && ((forall i :: LastRow(rows, lid, i) ==> !Strings.Truthy(rows[i].latitude)) ==>
            r.latitude == Get(lang, "latitude"))
      && ((forall i :: LastRow(rows, lid, i) ==> !Strings.Truthy(rows[i].longitude)) ==>
            r.longitude == Get(lang, "longitude"))
  {
    var lmap := ListById(rows);
    ListByIdHoldsLastRow(rows, lid);
    if lid in lmap {
      var i :| 0 <= i < |rows| && rows[i].id == lid && lmap[lid] == rows[i]
        && forall j :: i < j < |rows| ==> rows[j].id != lid;
      LastRowUnique(rows, lid, i);
    }
  }

  /** The last row of an id is unique. */
  lemma LastRowUnique(rows: seq<ListedLanguage>, lid: int, i: int)
    requires LastRow(rows, lid, i)
    ensures forall k :: LastRow(rows, lid, k) ==> k == i
  {
  }

  // ---------------------------------------------------------------------
  // The time frame of a language

  /** The key the emitting loop reads the time frame under. */
  const ReadTimeFrameKey: string := "time_frame"

  /** The key `parse_language` writes the time frame under. */
  const WrittenTimeFrameKey: string := "time-frame"

  /** As written, no emitted language carries a time frame: the loop reads
      a key that `parse_language` never writes. */
  lemma TimeFrameNeverEmitted(
    languages: map<int, Parsed>, keep: set<int>, lmap: map<int, ListedLanguage>,
    gmap: map<int, string>, byIso: map<string, string>)
    requires Emittable(languages, keep)
    requires forall lid :: lid in languages ==> languages[lid].Keys <= ParsedKeys
    ensures forall r :: r in PlanLanguages(languages, keep, lmap, gmap, byIso, ReadTimeFrameKey) ==>
      r.timeFrame.None?
  {
    assert ReadTimeFrameKey !in ParsedKeys;
  }

  /** A language with a time frame from 1000 to 1200 and no focal point. */
  function OldNorse(): Parsed {
    ParseLanguage(Some("Old Norse"), None, None, None, Some("non"), None, Some(TimeFrame(Some("1000"), Some("1200"))))
  }

  lemma OldNorseParsed()
    ensures OldNorse()["name"] == Some("Old Norse") && OldNorse()["iso-693-3"] == Some("non")
    ensures Get(OldNorse(), "latitude").None? && Get(OldNorse(), "longitude").None?
    ensures Get(OldNorse(), WrittenTimeFrameKey) == Some("1000-1200")
    ensures Get(OldNorse(), ReadTimeFrameKey).None?
  {
    assert "1000" + "-" + "1200" == "1000-1200";
    assert ReadTimeFrameKey !in ParsedKeys;
  }

  /** The plan for a single kept language is its one record. */
  lemma PlanOfOne(lang: Parsed, key: string)
    requires "name" in lang && "iso-693-3" in lang
    ensures PlanLanguages(map[1 := lang], {1}, map[], map[], map[], key)
      == [LanguageOf(1, lang, map[], map[], map[], key)]
  {
    Order.IntLtStrictTotal();
    var languages := map[1 := lang];
    assert languages.Keys == {1};
    var ids := Order.SortSet(languages.Keys, Order.IntLt);
    assert ids == [1] by {
      assert |ids| == 1 && 1 in ids;
    }
    assert EmitIn(ids[1..], languages, {1}, map[], map[], map[], key) == [];
  }

  /** A language whose time frame runs from 1000 to 1200 is emitted without it. */
  lemma TimeFrameLost()
    ensures Get(OldNorse(), WrittenTimeFrameKey) == Some("1000-1200")
    ensures PlanLanguages(map[1 := OldNorse()], {1}, map[], map[], map[], ReadTimeFrameKey)
      == [LanguageRecord(1, Some("Old Norse"), None, Some("non"), None, None, None)]
  {
    OldNorseParsed();
    PlanOfOne(OldNorse(), ReadTimeFrameKey);
  }

  /** Read under the key `parse_language` writes, every emitted language
      carries the time frame parsed for it: "from-until" when the element
      is present, `None` when it is not. */
  lemma TimeFrameCarried(
    languages: map<int, Parsed>, keep: set<int>, lmap: map<int, ListedLanguage>,
    gmap: map<int, string>, byIso: map<string, string>)
    requires Emittable(languages, keep)
    ensures forall r :: r in PlanLanguages(languages, keep, lmap, gmap, byIso, WrittenTimeFrameKey) ==>
      r.timeFrame == Get(languages[r.id], WrittenTimeFrameKey)
  {
    assert WrittenTimeFrameKey !in {"latitude", "longitude"};
  }

  /** The corrected reading keeps the time frame of the same language. */
  lemma TimeFrameKept()
    ensures PlanLanguages(map[1 := OldNorse()], {1}, map[], map[], map[], WrittenTimeFrameKey)
      == [LanguageRecord(1, Some("Old Norse"), None, Some("non"), None, None, Some("1000-1200"))]
  {
    OldNorseParsed();
    PlanOfOne(OldNorse(), WrittenTimeFrameKey);
  }
}
