/** The taxonomy index built by the CSV `complete` callback of src/App.js.

    One pass over the rows fills `areasMap` (parent area -> list of
    `{area, area_title}`, no title twice) and `conferencesMap` (area title ->
    set of conference titles); a second loop collects every conference title
    for the initial selection. `BuildIndex` is that code; `AreasMap` and
    `Taxonomy.ConferencesByArea` say what it computes in terms of the whole
    row list, and the lemmas say what those values hold. */
module AppIndex {
  import opened Js
  import opened Seqs
  import opened Grouping
  import opened Taxonomy

  /** An element of `areasMap[parentArea]`: `{ area, area_title }`. */
  datatype AreaEntry = AreaEntry(area: Cell, areaTitle: Cell)

  function TitleOf(e: AreaEntry): Cell { e.areaTitle }

  function EntryOf(r: Row): AreaEntry { AreaEntry(r.area, r.areaTitle) }

  /** `row.ParentArea || "Other"`. */
  function ParentOf(r: Row): (p: string)
    ensures p != ""
    ensures p == "Other" <==> !Truthy(r.parentArea) || r.parentArea.value == "Other"
  {
    if Truthy(r.parentArea) then r.parentArea.value else "Other"
  }

  /** `areasMap[p]` after the loop. */
  function AreasUnder(rows: seq<Row>, p: string): seq<AreaEntry> {
    GroupUnder(rows, ParentOf, EntryOf, TitleOf, p)
  }

  /** The whole `areasMap`: parent areas in the order first met. */
  function AreasMap(rows: seq<Row>): Dict<seq<AreaEntry>> {
    Group(rows, ParentOf, EntryOf, TitleOf)
  }

  /** What the callback hands to React state: `areas`, `conferencesByArea`,
      and the list `allConfNamesFromCSV` whose set is the initial selection. */
  datatype Index = Index(
    areas: Dict<seq<AreaEntry>>,
    conferencesByArea: Dict<seq<Cell>>,
    allConfNames: seq<Cell>)

  /** Files one row's area under its parent area. */
  method AddArea(areasMap: Dict<seq<AreaEntry>>, row: Row) returns (r: Dict<seq<AreaEntry>>)
    ensures r == File(areasMap, row, ParentOf, EntryOf, TitleOf)
  {
    r := areasMap;
    var areaTitle := row.areaTitle;
    var parentArea := ParentOf(row);
    if parentArea !in r.vals {
      r := r.Put(parentArea, []);
    }
    var list := r.vals[parentArea];
    if !HasKey(list, TitleOf, areaTitle) {
      r := r.Put(parentArea, list + [AreaEntry(row.area, areaTitle)]);
    }
  }

  /** The row-folding loop of the `complete` callback and the collection of
      all conference names. */
  method BuildIndex(rows: seq<Row>) returns (idx: Index)
    ensures idx.areas == AreasMap(rows)
    ensures idx.conferencesByArea == ConferencesByArea(rows)
    ensures idx.allConfNames == Flatten(idx.conferencesByArea)
    ensures forall x :: x in idx.allConfNames <==>
              exists i :: 0 <= i < |rows| && rows[i].conferenceTitle == x
  {
    var areasMap: Dict<seq<AreaEntry>> := Empty();
    var conferencesMap: Dict<seq<Cell>> := Empty();
    var i := 0;
    assert rows[..0] == [];
    while i < |rows|
      invariant 0 <= i <= |rows|
      invariant areasMap == Fold(rows[..i], ParentOf, EntryOf, TitleOf)
      invariant conferencesMap == Fold(rows[..i], AreaKey, Title, Id)
    {
      var row := rows[i];
      areasMap := AddArea(areasMap, row);
      conferencesMap := AddConference(conferencesMap, row);
      assert rows[..i + 1][..i] == rows[..i];
      i := i + 1;
    }
    assert rows[..i] == rows;
    FoldIsGroup(rows, ParentOf, EntryOf, TitleOf);
    FoldIsGroup(rows, AreaKey, Title, Id);
    assert conferencesMap.Valid() by {
      ConferencesByAreaSpec(rows);
    }
    var finalConferencesByArea := CopyToArrays(conferencesMap);
    var names := CollectNames(conferencesMap);
    AllTitles(rows);
    idx := Index(areasMap, finalConferencesByArea, names);
  }

  /** `areasMap` is a well-formed dictionary keyed by exactly the rows' parent
      areas, a missing or empty `ParentArea` counting as "Other". */
  lemma AreasMapKeys(rows: seq<Row>)
    ensures AreasMap(rows).Valid()
    ensures forall p :: p in AreasMap(rows).vals <==>
              exists i :: 0 <= i < |rows| && (if Truthy(rows[i].parentArea) then rows[i].parentArea.value else "Other") == p
  {
    GroupKeys(rows, ParentOf, EntryOf, TitleOf);
  }

  /** Within one parent area no two entries share an area title. */
  lemma AreaTitlesDistinct(rows: seq<Row>, p: string)
    ensures forall i, j :: 0 <= i < j < |AreasUnder(rows, p)| ==>
              AreasUnder(rows, p)[i].areaTitle != AreasUnder(rows, p)[j].areaTitle
  {
    GroupDistinct(rows, ParentOf, EntryOf, TitleOf, p);
  }

  /** Every row's area is listed under its parent area, a row whose
      `ParentArea` is missing or empty under "Other". */
  lemma EveryAreaFiled(rows: seq<Row>)
    ensures forall i :: 0 <= i < |rows| && Truthy(rows[i].parentArea) ==>
              exists e :: e in AreasUnder(rows, rows[i].parentArea.value) && e.areaTitle == rows[i].areaTitle
    ensures forall i :: 0 <= i < |rows| && !Truthy(rows[i].parentArea) ==>
              exists e :: e in AreasUnder(rows, "Other") && e.areaTitle == rows[i].areaTitle
  {
    EveryRowFiled(rows, ParentOf, EntryOf, TitleOf);
    forall i | 0 <= i < |rows|
      ensures exists e :: e in AreasUnder(rows, ParentOf(rows[i])) && e.areaTitle == rows[i].areaTitle
    {
      var a := AreasUnder(rows, ParentOf(rows[i]));
      var j :| 0 <= j < |a| && TitleOf(a[j]) == TitleOf(EntryOf(rows[i]));
      assert a[j] in a;
    }
  }

  /** The `area` code stored for a title is that of the FIRST row with this
      title under this parent area; later rows never replace it. */
  lemma AreaCodeFromFirstRow(rows: seq<Row>, p: string)
    ensures forall e :: e in AreasUnder(rows, p) ==>
              exists i :: 0 <= i < |rows| && ParentOf(rows[i]) == p &&
                          rows[i].areaTitle == e.areaTitle && rows[i].area == e.area &&
                          forall j :: 0 <= j < i && ParentOf(rows[j]) == p ==> rows[j].areaTitle != e.areaTitle
  {
    FirstRowKept(rows, ParentOf, EntryOf, TitleOf, p);
  }
}
