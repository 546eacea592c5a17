/** The `App` component of src/App.js: its React state as a class, the
    selection handlers as methods on it, and the queries the sidebar uses as
    functions. A state setter is an assignment to the field; the effect that
    re-runs `filterConferences` when the selection, the query or the list
    changes is the `FilterConferences` method, which a caller runs after the
    handlers. */
module App {
  import opened Js
  import opened Seqs
  import opened Grouping
  import opened Taxonomy
  import opened AppIndex
  import opened Conferences
  import Pipeline

  /** `conferencesByArea[areaTitle] || []`. */
  function GetConferencesByAreaTitle(conferencesByArea: Dict<seq<Cell>>, areaTitle: Cell): (r: seq<Cell>)
    ensures areaTitle == None ==> r == ListAt(conferencesByArea, "undefined")
    ensures Key(areaTitle) !in conferencesByArea.vals ==> r == []
    ensures Key(areaTitle) in conferencesByArea.vals ==> r == conferencesByArea.vals[Key(areaTitle)]
  {
    ListAt(conferencesByArea, Key(areaTitle))
  }

  /** The concatenation of the conference lists of the given areas. */
  function ConferencesOfAreas(areaDetails: seq<AreaEntry>, conferencesByArea: Dict<seq<Cell>>): seq<Cell> {
    if areaDetails == [] then []
    else
      var e := areaDetails[|areaDetails| - 1];
      ConferencesOfAreas(areaDetails[..|areaDetails| - 1], conferencesByArea) +
        GetConferencesByAreaTitle(conferencesByArea, e.areaTitle)
  }

  /** The loop of `getConferencesByParentArea`: concatenate, area by area,
      the conference lists of the areas under `parentArea`. */
  method GetConferencesByParentArea(areas: Dict<seq<AreaEntry>>, conferencesByArea: Dict<seq<Cell>>, parentArea: string)
    returns (confs: seq<Cell>)
    ensures confs == ConferencesOfAreas(ListAt(areas, parentArea), conferencesByArea)
  {
    confs := [];
    var areaDetails := ListAt(areas, parentArea);
    var i := 0;
    while i < |areaDetails|
      invariant 0 <= i <= |areaDetails|
      invariant confs == ConferencesOfAreas(areaDetails[..i], conferencesByArea)
    {
      assert areaDetails[..i + 1][..i] == areaDetails[..i];
      confs := confs + GetConferencesByAreaTitle(conferencesByArea, areaDetails[i].areaTitle);
      i := i + 1;
    }
    assert areaDetails[..i] == areaDetails;
  }

  /** A conference is in the concatenation iff one of the areas lists it. */
  lemma {:induction false} ConferencesOfAreasIff(areaDetails: seq<AreaEntry>, conferencesByArea: Dict<seq<Cell>>, x: Cell)
    ensures x in ConferencesOfAreas(areaDetails, conferencesByArea) <==>
            exists k :: 0 <= k < |areaDetails| && x in GetConferencesByAreaTitle(conferencesByArea, areaDetails[k].areaTitle)
  {
    if areaDetails != [] {
      var init := areaDetails[..|areaDetails| - 1];
      ConferencesOfAreasIff(init, conferencesByArea, x);
      if k :| 0 <= k < |init| && x in GetConferencesByAreaTitle(conferencesByArea, init[k].areaTitle) {
        assert areaDetails[k] == init[k];
      }
      if k :| 0 <= k < |areaDetails| && x in GetConferencesByAreaTitle(conferencesByArea, areaDetails[k].areaTitle) {
        if k < |init| {
          assert init[k] == areaDetails[k];
        }
      }
    }
  }

  /** On the index built from the rows, an area's list holds exactly the
      titles of the rows whose area title has the same property key, each
      once. */
  lemma AreaTitleConferences(rows: seq<Row>, areaTitle: Cell)
    ensures NoDup(GetConferencesByAreaTitle(ConferencesByArea(rows), areaTitle))
    ensures forall x :: x in GetConferencesByAreaTitle(ConferencesByArea(rows), areaTitle) <==>
              exists j :: 0 <= j < |rows| && Key(rows[j].areaTitle) == Key(areaTitle) && rows[j].conferenceTitle == x
  {
    var k := Key(areaTitle);
    ConferencesByAreaSpec(rows);
    ConferencesInSpec(rows, k);
  }

  /** Row `j`'s conference shows under `parentArea` through row `i`: row `i`
      files its area under that parent area and row `j` shares its area key. */
  predicate ReachedVia(rows: seq<Row>, parentArea: string, i: int, j: int) {
    0 <= i < |rows| && 0 <= j < |rows| && ParentOf(rows[i]) == parentArea &&
    Key(rows[j].areaTitle) == Key(rows[i].areaTitle)
  }

  lemma ParentAreaListsOnlyRows(rows: seq<Row>, parentArea: string, x: Cell)
    ensures x in ConferencesOfAreas(ListAt(AreasMap(rows), parentArea), ConferencesByArea(rows)) ==>
            exists i, j :: ReachedVia(rows, parentArea, i, j) && rows[j].conferenceTitle == x
  {
    if x !in ConferencesOfAreas(ListAt(AreasMap(rows), parentArea), ConferencesByArea(rows)) {
      return;
    }
    var areaDetails := ListAt(AreasMap(rows), parentArea);
    var cba := ConferencesByArea(rows);
    ConferencesOfAreasIff(areaDetails, cba, x);
    var k :| 0 <= k < |areaDetails| && x in GetConferencesByAreaTitle(cba, areaDetails[k].areaTitle);
    var e := areaDetails[k];
    assert e in DedupOn(EntriesUnder(rows, ParentOf, EntryOf, parentArea), TitleOf);
    DedupOnFirst(EntriesUnder(rows, ParentOf, EntryOf, parentArea), TitleOf);
    EntriesUnderIff(rows, ParentOf, EntryOf, parentArea, e);
    var i :| 0 <= i < |rows| && ParentOf(rows[i]) == parentArea && EntryOf(rows[i]) == e;
    AreaTitleConferences(rows, e.areaTitle);
    var j :| 0 <= j < |rows| && Key(rows[j].areaTitle) == Key(e.areaTitle) && rows[j].conferenceTitle == x;
    assert ReachedVia(rows, parentArea, i, j);
  }

  /** Row `i`'s area title is among the areas listed under its parent area. */
  lemma AreaOfRowListed(rows: seq<Row>, i: int)
    requires 0 <= i < |rows|
    ensures HasKey(ListAt(AreasMap(rows), ParentOf(rows[i])), TitleOf, rows[i].areaTitle)
  {
    var p := ParentOf(rows[i]);
    assert Parents(rows, ParentOf)[i] == p;
    assert ListAt(AreasMap(rows), p) == AreasUnder(rows, p);
    EveryRowFiled(rows, ParentOf, EntryOf, TitleOf);
    assert TitleOf(EntryOf(rows[i])) == rows[i].areaTitle;
  }

  lemma ParentAreaListsEveryRow(rows: seq<Row>, parentArea: string, i: int, j: int)
    requires ReachedVia(rows, parentArea, i, j)
    ensures rows[j].conferenceTitle in ConferencesOfAreas(ListAt(AreasMap(rows), parentArea), ConferencesByArea(rows))
  {
    var areaDetails := ListAt(AreasMap(rows), parentArea);
    var cba := ConferencesByArea(rows);
    var x := rows[j].conferenceTitle;
    AreaOfRowListed(rows, i);
    var k :| 0 <= k < |areaDetails| && TitleOf(areaDetails[k]) == rows[i].areaTitle;
    assert x in GetConferencesByAreaTitle(cba, areaDetails[k].areaTitle) by {
      AreaTitleConferences(rows, rows[i].areaTitle);
    }
    assert x in ConferencesOfAreas(areaDetails, cba) by {
      ConferencesOfAreasIff(areaDetails, cba, x);
    }
  }

  /** On the index built from the rows, a parent area's conferences are the
      titles of the rows whose area title is one of the area titles met under
      that parent area, even where such a row itself sits under another
      parent area. */
  lemma ParentAreaConferences(rows: seq<Row>, parentArea: string, x: Cell)
    ensures x in ConferencesOfAreas(ListAt(AreasMap(rows), parentArea), ConferencesByArea(rows)) <==>
            exists i, j :: 0 <= i < |rows| && 0 <= j < |rows| && ParentOf(rows[i]) == parentArea &&
                           Key(rows[j].areaTitle) == Key(rows[i].areaTitle) && rows[j].conferenceTitle == x
  {
    if x in ConferencesOfAreas(ListAt(AreasMap(rows), parentArea), ConferencesByArea(rows)) {
      ParentAreaListsOnlyRows(rows, parentArea, x);
    }
    if i, j :| 0 <= i < |rows| && 0 <= j < |rows| && ParentOf(rows[i]) == parentArea &&
               Key(rows[j].areaTitle) == Key(rows[i].areaTitle) && rows[j].conferenceTitle == x {
      ParentAreaListsEveryRow(rows, parentArea, i, j);
    }
  }

  /** `confList.every(c => selected.has(c))`. */
  function Every(confList: seq<Cell>, selected: set<Cell>): (r: bool)
    ensures r <==> forall c :: c in confList ==> c in selected
  {
    if confList == [] then true
    else
      var init := confList[..|confList| - 1];
      assert confList == init + [confList[|confList| - 1]];
      Every(init, selected) && confList[|confList| - 1] in selected
  }

  /** `confList.some(c => selected.has(c))`. */
  function Any(confList: seq<Cell>, selected: set<Cell>): (r: bool)
    ensures r <==> exists c :: c in confList && c in selected
  {
    if confList == [] then false
    else
      var init := confList[..|confList| - 1];
      assert confList == init + [confList[|confList| - 1]];
      Any(init, selected) || confList[|confList| - 1] in selected
  }

  /** The parent or area checkbox is checked: a non-empty list, all selected. */
  function IsAllSelected(selected: set<Cell>, confList: seq<Cell>): (r: bool)
    ensures r <==> confList != [] && forall c :: c in confList ==> c in selected
  {
    |confList| > 0 && Every(confList, selected)
  }

  /** The checkbox is indeterminate: at least one selected and at least one not. */
  function IsSomeSelected(selected: set<Cell>, confList: seq<Cell>): (r: bool)
    ensures r <==> (exists c :: c in confList && c in selected) && (exists c :: c in confList && c !in selected)
  {
    Any(confList, selected) && !IsAllSelected(selected, confList)
  }

  /** For a non-empty list the checkbox is in exactly one of its three
      states; an empty list is never checked nor indeterminate. */
  lemma TriState(selected: set<Cell>, confList: seq<Cell>)
    ensures confList == [] ==> !IsAllSelected(selected, confList) && !IsSomeSelected(selected, confList)
    ensures confList != [] ==>
              (IsAllSelected(selected, confList) && !IsSomeSelected(selected, confList)) ||
              (!IsAllSelected(selected, confList) && IsSomeSelected(selected, confList)) ||
              (!Any(confList, selected) && !IsAllSelected(selected, confList) && !IsSomeSelected(selected, confList))
  {
    if confList != [] && IsAllSelected(selected, confList) {
      assert confList[0] in confList;
    }
  }

  /** The selection after `toggleMultipleConferences(confList, select)`. */
  function Toggled(selected: set<Cell>, confList: seq<Cell>, select: bool): (r: set<Cell>)
    ensures forall c :: c in r <==> if c in confList then select else c in selected
  {
    var listed := set c | c in confList;
    if select then selected + listed else selected - listed
  }

  /** The selection after `handleCheckboxChange(conferenceName)`. */
  function Flipped(selected: set<Cell>, conferenceName: Cell): (r: set<Cell>)
    ensures forall c :: c in r <==> (c == conferenceName) != (c in selected)
  {
    if conferenceName in selected then selected - {conferenceName} else selected + {conferenceName}
  }

  /** Selecting a list checks its box (when it is not empty); deselecting it
      clears the box and its indeterminate state. Names outside the list keep
      their state either way. */
  lemma ToggleEffect(selected: set<Cell>, confList: seq<Cell>, select: bool)
    ensures select ==> (IsAllSelected(Toggled(selected, confList, select), confList) <==> confList != [])
    ensures !select ==> !Any(confList, Toggled(selected, confList, select))
    ensures !IsSomeSelected(Toggled(selected, confList, select), confList)
    ensures forall c :: c !in confList ==> (c in Toggled(selected, confList, select) <==> c in selected)
  {
  }

  /** Toggling twice the same way is toggling once; deselecting after
      selecting removes the list whatever was selected before. */
  lemma ToggleTwice(selected: set<Cell>, confList: seq<Cell>, select: bool)
    ensures Toggled(Toggled(selected, confList, select), confList, select) == Toggled(selected, confList, select)
    ensures Toggled(Toggled(selected, confList, true), confList, false) == Toggled(selected, confList, false)
  {
  }

  /** A checkbox click flips that one name and nothing else, and clicking
      twice restores the selection. */
  lemma FlipEffect(selected: set<Cell>, conferenceName: Cell)
    ensures conferenceName in Flipped(selected, conferenceName) <==> conferenceName !in selected
    ensures forall c :: c != conferenceName ==> (c in Flipped(selected, conferenceName) <==> c in selected)
    ensures Flipped(Flipped(selected, conferenceName), conferenceName) == selected
  {
  }

  /** The state of the `App` component. */
  class Dashboard {
    var conferences: seq<Conference>
    var filteredConferences: seq<Conference>
    var areas: Dict<seq<AreaEntry>>
    var selectedConferences: set<Cell>
    var searchQuery: string
    var loading: bool
    var conferencesByArea: Dict<seq<Cell>>

    /** The initial `useState` values. */
    constructor ()
      ensures conferences == [] && filteredConferences == [] && areas == Empty()
      ensures selectedConferences == {} && searchQuery == "" && loading && conferencesByArea == Empty()
    {
      conferences := [];
      filteredConferences := [];
      areas := Empty();
      selectedConferences := {};
      searchQuery := "";
      loading := true;
      conferencesByArea := Empty();
    }

    /** The CSV `complete` callback, given the parsed rows and the conference
        list loaded from YAML: store the index, select every conference title
        of the rows, show the list unfiltered and stop loading. */
    method Complete(rows: seq<Row>, loadedConferences: seq<Conference>)
      modifies this
      ensures areas == AreasMap(rows) && conferencesByArea == ConferencesByArea(rows)
      ensures conferences == loadedConferences && filteredConferences == loadedConferences
      ensures forall x :: x in selectedConferences <==> exists i :: 0 <= i < |rows| && rows[i].conferenceTitle == x
      ensures !loading && searchQuery == old(searchQuery)
    {
      var idx := BuildIndex(rows);
      areas := idx.areas;
      conferencesByArea := idx.conferencesByArea;
      conferences := loadedConferences;
      selectedConferences := set x | x in idx.allConfNames;
      filteredConferences := loadedConferences;
      loading := false;
    }

    /** `toggleMultipleConferences`: add (or delete) each name of the list
        in a copy of the selection, then store the copy. */
    method ToggleMultipleConferences(confList: seq<Cell>, select: bool)
      modifies this`selectedConferences
      ensures selectedConferences == Toggled(old(selectedConferences), confList, select)
    {
      var updatedSelected := selectedConferences;
      var i := 0;
      while i < |confList|
        invariant 0 <= i <= |confList|
        invariant updatedSelected == Toggled(selectedConferences, confList[..i], select)
      {
        assert confList[..i + 1] == confList[..i] + [confList[i]];
        if select {
          updatedSelected := updatedSelected + {confList[i]};
        } else {
          updatedSelected := updatedSelected - {confList[i]};
        }
        i := i + 1;
      }
      assert confList[..i] == confList;
      selectedConferences := updatedSelected;
    }

    /** `handleCheckboxChange`: flip one name in a copy of the selection. */
    method HandleCheckboxChange(conferenceName: Cell)
      modifies this`selectedConferences
      ensures selectedConferences == Flipped(old(selectedConferences), conferenceName)
    {
      var updatedSelected := selectedConferences;
      if conferenceName in updatedSelected {
        updatedSelected := updatedSelected - {conferenceName};
      } else {
        updatedSelected := updatedSelected + {conferenceName};
      }
      selectedConferences := updatedSelected;
    }

    /** `handleSearchChange`: store the text field's value. */
    method HandleSearchChange(value: string)
      modifies this`searchQuery
      ensures searchQuery == value
    {
      searchQuery := value;
    }

    /** `filterConferences`, at clock reading `now`. */
    method FilterConferences(now: int)
      modifies this`filteredConferences
      ensures filteredConferences == Pipeline.FilterConferences(conferences, selectedConferences, searchQuery, now)
    {
      var updated := Pipeline.Filter(conferences, selectedConferences, searchQuery);
      filteredConferences := Pipeline.SortByDeadline(updated, now);
    }
  }
}
