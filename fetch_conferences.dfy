/** The `complete` callback of `parseCSV` in src/components/FetchConferences.js.

    A variant of the App.js index build: area entries also carry `year` and
    `note` and are de-duplicated on (area_title, year, note); the parent area
    is taken verbatim (no "Other"); a third map records, per conference name,
    whether its LAST row has `NextTier` equal to "true" ignoring ASCII case;
    and `allConferenceNames` concatenates the per-area lists with `flatMap`,
    so a conference listed in two areas appears twice. */
module FetchConferences {
  import opened Js
  import opened Seqs
  import opened Grouping
  import opened Taxonomy

  /** An element of `areasMap[parentArea]`: `{ area, area_title, year, note }`. */
  datatype YearArea = YearArea(area: Cell, areaTitle: Cell, year: Cell, note: Cell)

  /** What two entries are compared on before a push. */
  datatype Edition = Edition(areaTitle: Cell, year: Cell, note: Cell)

  function EditionOf(e: YearArea): Edition { Edition(e.areaTitle, e.year, e.note) }

  function YearAreaOf(r: Row): YearArea { YearArea(r.area, r.areaTitle, r.year, r.note) }

  /** `areasMap[row.ParentArea]`: the parent area as a property key, verbatim. */
  function ParentKey(r: Row): string { Key(r.parentArea) }

  /** `conferencesMap`-style key of a conference name, for `nextTierFlags`. */
  function NameKey(r: Row): string { Key(r.conferenceTitle) }

  /** The value `row.NextTier && row.NextTier.toLowerCase() === 'true'`: a
      falsy `NextTier` is stored as it is, anything else as a boolean. */
  datatype Flag = Undefined | EmptyString | Bool(b: bool)

  function TierFlag(c: Cell): (f: Flag)
    ensures f == Bool(true) <==> c.Some? && Lower(c.value) == "true"
    ensures f.Bool? <==> Truthy(c)
    ensures c == None ==> f == Undefined
    ensures c == Some("") ==> f == EmptyString
  {
    match c
    case None => Undefined
    case Some(s) => if s == "" then EmptyString else Bool(Lower(s) == "true")
  }

  /** `areasMap` after the loop. */
  function YearAreasMap(rows: seq<Row>): Dict<seq<YearArea>> {
    Group(rows, ParentKey, YearAreaOf, EditionOf)
  }

  function YearAreasUnder(rows: seq<Row>, p: string): seq<YearArea> {
    GroupUnder(rows, ParentKey, YearAreaOf, EditionOf, p)
  }

  /** `nextTierFlags` after the loop: one assignment per row, in row order. */
  function NextTierFlags(rows: seq<Row>): (d: Dict<Flag>)
    ensures |d.keys| <= |rows|
    ensures rows != [] ==> NameKey(rows[|rows| - 1]) in d.vals && d.vals[NameKey(rows[|rows| - 1])] == TierFlag(rows[|rows| - 1].nextTier)
  {
    if rows == [] then Empty()
    else
      var r := rows[|rows| - 1];
      NextTierFlags(rows[..|rows| - 1]).Put(NameKey(r), TierFlag(r.nextTier))
  }

  /** The object `parseCSV` resolves with. */
  datatype CsvData = CsvData(
    areasMap: Dict<seq<YearArea>>,
    conferencesByArea: Dict<seq<Cell>>,
    allConferenceNames: seq<Cell>,
    nextTierFlags: Dict<Flag>)

  /** Files one row's area entry under its (verbatim) parent area. */
  method AddYearArea(areasMap: Dict<seq<YearArea>>, row: Row) returns (r: Dict<seq<YearArea>>)
    ensures r == File(areasMap, row, ParentKey, YearAreaOf, EditionOf)
  {
    r := areasMap;
    var parentArea := Key(row.parentArea);
    if parentArea !in r.vals {
      r := r.Put(parentArea, []);
    }
    var list := r.vals[parentArea];
    if !HasKey(list, EditionOf, Edition(row.areaTitle, row.year, row.note)) {
      r := r.Put(parentArea, list + [YearArea(row.area, row.areaTitle, row.year, row.note)]);
    }
  }

  /** The row-folding loop, the copy to arrays, and the `flatMap`. */
  method ParseCsv(rows: seq<Row>) returns (data: CsvData)
    ensures data.areasMap == YearAreasMap(rows)
    ensures data.conferencesByArea == ConferencesByArea(rows)
    ensures data.allConferenceNames == Flatten(ConferencesByArea(rows))
    ensures data.nextTierFlags == NextTierFlags(rows)
  {
    var areasMap: Dict<seq<YearArea>> := Empty();
    var conferencesMap: Dict<seq<Cell>> := Empty();
    var nextTierFlags: Dict<Flag> := Empty();
    var i := 0;
    assert rows[..0] == [];
    while i < |rows|
      invariant 0 <= i <= |rows|
      invariant areasMap == Fold(rows[..i], ParentKey, YearAreaOf, EditionOf)
      invariant conferencesMap == Fold(rows[..i], AreaKey, Title, Id)
      invariant nextTierFlags == NextTierFlags(rows[..i])
    {
      var row := rows[i];
      var isNextTier := TierFlag(row.nextTier);
      nextTierFlags := nextTierFlags.Put(Key(row.conferenceTitle), isNextTier);
      areasMap := AddYearArea(areasMap, row);
      conferencesMap := AddConference(conferencesMap, row);
      assert rows[..i + 1][..i] == rows[..i];
      i := i + 1;
    }
    assert rows[..i] == rows;
    FoldIsGroup(rows, ParentKey, YearAreaOf, EditionOf);
    FoldIsGroup(rows, AreaKey, Title, Id);
    assert conferencesMap.Valid() by {
      ConferencesByAreaSpec(rows);
    }
    var finalConferencesByArea := CopyToArrays(conferencesMap);
    var all := CollectNames(conferencesMap);
    data := CsvData(areasMap, finalConferencesByArea, all, nextTierFlags);
  }

  /** Within one parent area no two entries share title, year and note. */
  lemma EditionsDistinct(rows: seq<Row>, p: string)
    ensures forall i, j :: 0 <= i < j < |YearAreasUnder(rows, p)| ==>
              var a, b := YearAreasUnder(rows, p)[i], YearAreasUnder(rows, p)[j];
              a.areaTitle != b.areaTitle || a.year != b.year || a.note != b.note
  {
    GroupDistinct(rows, ParentKey, YearAreaOf, EditionOf, p);
  }

  /** Row `i` has an entry with its own title, year and note under its own
      verbatim parent area. */
  ghost predicate EditionFiled(rows: seq<Row>, i: nat)
    requires i < |rows|
  {
    exists e :: e in YearAreasUnder(rows, Key(rows[i].parentArea)) &&
                e.areaTitle == rows[i].areaTitle && e.year == rows[i].year && e.note == rows[i].note
  }

  /** Every row is represented, so rows that differ only in year or note
      give separate entries. */
  lemma EveryEditionFiled(rows: seq<Row>)
    ensures forall i :: 0 <= i < |rows| ==> EditionFiled(rows, i)
  {
    EveryRowFiled(rows, ParentKey, YearAreaOf, EditionOf);
    forall i | 0 <= i < |rows| ensures EditionFiled(rows, i) {
      var a := YearAreasUnder(rows, ParentKey(rows[i]));
      var j :| 0 <= j < |a| && EditionOf(a[j]) == EditionOf(YearAreaOf(rows[i]));
      var e := a[j];
      assert e in YearAreasUnder(rows, Key(rows[i].parentArea));
    }
  }

  /** The parent areas are the rows' `ParentArea` values as property keys,
      with no default: a row without one is filed under "undefined", and an
      empty one under "". */
  lemma ParentAreasVerbatim(rows: seq<Row>)
    ensures YearAreasMap(rows).Valid()
    ensures forall p :: p in YearAreasMap(rows).vals <==>
              exists i :: 0 <= i < |rows| && Key(rows[i].parentArea) == p
    ensures forall i :: 0 <= i < |rows| && rows[i].parentArea == None ==> "undefined" in YearAreasMap(rows).vals
    ensures forall i :: 0 <= i < |rows| && rows[i].parentArea == Some("") ==> "" in YearAreasMap(rows).vals
  {
    GroupKeys(rows, ParentKey, YearAreaOf, EditionOf);
    forall i | 0 <= i < |rows| ensures ParentKey(rows[i]) in YearAreasMap(rows).vals {
    }
  }

  /** The `area` code kept for an edition is that of its first row. */
  lemma EditionFromFirstRow(rows: seq<Row>, p: string)
    ensures forall e :: e in YearAreasUnder(rows, p) ==>
              exists i :: 0 <= i < |rows| && Key(rows[i].parentArea) == p && YearAreaOf(rows[i]) == e &&
                          forall j :: 0 <= j < i && Key(rows[j].parentArea) == p ==> EditionOf(YearAreaOf(rows[j])) != EditionOf(e)
  {
    FirstRowKept(rows, ParentKey, YearAreaOf, EditionOf, p);
  }

  /** The names flagged are exactly the rows' names, each once, in the
      order first seen. */
  lemma {:induction false} FlaggedNames(rows: seq<Row>)
    ensures NextTierFlags(rows).keys == Dedup(Parents(rows, NameKey))
    ensures forall n :: n in NextTierFlags(rows).vals <==> n in Parents(rows, NameKey)
  {
    if rows != [] {
      var n := |rows| - 1;
      var init := rows[..n];
      FlaggedNames(init);
      ParentsStep(rows, n, NameKey);
      assert rows[..n + 1] == rows;
      DedupStep(Parents(init, NameKey), NameKey(rows[n]));
      DedupSpec(Parents(init, NameKey));
    }
  }

  /** Row `i` is the last row named `n`. */
  ghost predicate IsLastRow(rows: seq<Row>, n: string, i: int) {
    0 <= i < |rows| && NameKey(rows[i]) == n && forall j :: i < j < |rows| ==> NameKey(rows[j]) != n
  }

  /** The flag stored for a name is that of the LAST row with that name. */
  lemma {:induction false} LastRowWins(rows: seq<Row>)
    ensures forall n :: n in NextTierFlags(rows).vals ==>
              exists i :: IsLastRow(rows, n, i) && NextTierFlags(rows).vals[n] == TierFlag(rows[i].nextTier)
  {
    if rows != [] {
      var n := |rows| - 1;
      var init := rows[..n];
      var r := rows[n];
      LastRowWins(init);
      var before, after := NextTierFlags(init), NextTierFlags(rows);
      forall k | k in after.vals
        ensures exists i :: IsLastRow(rows, k, i) && after.vals[k] == TierFlag(rows[i].nextTier)
      {
        if k == NameKey(r) {
          assert IsLastRow(rows, k, n);
        } else {
          assert k in before.vals;
          var i :| IsLastRow(init, k, i) && before.vals[k] == TierFlag(init[i].nextTier);
          LastRowExtends(rows, k, i);
          assert rows[i] == init[i];
        }
      }
    }
  }

  /** The last row named `k` among all but the final row stays the last one
      when the final row has another name. */
  lemma LastRowExtends(rows: seq<Row>, k: string, i: int)
    requires rows != [] && NameKey(rows[|rows| - 1]) != k
    requires IsLastRow(rows[..|rows| - 1], k, i)
    ensures IsLastRow(rows, k, i)
  {
    var init := rows[..|rows| - 1];
    forall j | i < j < |rows| ensures NameKey(rows[j]) != k {
      if j < |init| {
        assert rows[j] == init[j];
      }
    }
  }

  /** A name is flagged as next tier iff its last row's `NextTier` reads
      "true" in any ASCII case; a name whose last row has no `NextTier` keeps
      `undefined`, and an empty one keeps "". */
  lemma NextTierIff(rows: seq<Row>)
    ensures NextTierFlags(rows).Valid()
    ensures forall n :: n in NextTierFlags(rows).vals ==>
              exists i :: IsLastRow(rows, n, i) &&
                          (NextTierFlags(rows).vals[n] == Bool(true) <==>
                             rows[i].nextTier.Some? && Lower(rows[i].nextTier.value) == "true") &&
                          (rows[i].nextTier == None ==> NextTierFlags(rows).vals[n] == Undefined) &&
                          (rows[i].nextTier == Some("") ==> NextTierFlags(rows).vals[n] == EmptyString)
  {
    FlaggedNames(rows);
    DedupSpec(Parents(rows, NameKey));
    LastRowWins(rows);
  }

  /** `allConferenceNames` repeats a name once per area listing it, and its
      length is the sum of the list lengths. */
  lemma AllNamesCounts(rows: seq<Row>, x: Cell)
    ensures var d := ConferencesByArea(rows);
            multiset(Flatten(d))[x] == Listings(d.keys, d.vals, x) &&
            |Flatten(d)| == TotalLength(d.keys, d.vals)
  {
    var d := ConferencesByArea(rows);
    forall k | k in d.vals ensures NoDup(d.vals[k]) {
      ConferencesInSpec(rows, k);
    }
    FlattenCounts(d.keys, d.vals, x);
  }
}
