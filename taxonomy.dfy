/** Taxonomy rows and the area -> conferences index that both loaders build.

    Both src/App.js and src/components/FetchConferences.js fold the CSV rows
    into `conferencesMap`, an object from `AreaTitle` to a `Set` of
    `ConferenceTitle` values, and then read it back with `Array.from`. That
    is a `Grouping.Group` keyed by area title with plain de-duplication; the
    lemmas here say what each list and their concatenation hold. */
module Taxonomy {
  import opened Js
  import opened Seqs
  import opened Grouping

  /** One row of a taxonomy CSV, parsed with a header line. A column the
      row lacks is `None` (`undefined`). */
  datatype Row = Row(
    conferenceTitle: Cell,
    area: Cell,
    areaTitle: Cell,
    parentArea: Cell,
    nextTier: Cell,
    year: Cell,
    note: Cell)

  /** `conferencesMap[row.AreaTitle]`: the property key the row is filed under. */
  function AreaKey(r: Row): string { Key(r.areaTitle) }

  function Title(r: Row): Cell { r.conferenceTitle }

  /** The titles of the rows filed under area key `k`, in row order, repetitions included. */
  function TitlesUnder(rows: seq<Row>, k: string): seq<Cell> {
    EntriesUnder(rows, AreaKey, Title, k)
  }

  /** `Array.from(conferencesMap[k])` once every row has been added. */
  function ConferencesIn(rows: seq<Row>, k: string): seq<Cell> {
    GroupUnder(rows, AreaKey, Title, Id, k)
  }

  /** The whole `conferencesMap` (and `finalConferencesByArea`): area keys in
      the order first met, each with its conference list. */
  function ConferencesByArea(rows: seq<Row>): Dict<seq<Cell>> {
    Group(rows, AreaKey, Title, Id)
  }

  /** `if (!conferencesMap[areaTitle]) conferencesMap[areaTitle] = new Set();
      conferencesMap[areaTitle].add(row.ConferenceTitle);` */
  method AddConference(conferencesMap: Dict<seq<Cell>>, row: Row) returns (r: Dict<seq<Cell>>)
    ensures r == File(conferencesMap, row, AreaKey, Title, Id)
  {
    r := conferencesMap;
    var k := Key(row.areaTitle);
    if k !in r.vals {
      r := r.Put(k, []);
    }
    var confs := r.vals[k];
    HasKeyId(confs, row.conferenceTitle);
    if row.conferenceTitle !in confs {
      r := r.Put(k, confs + [row.conferenceTitle]);
    }
  }

  /** Each area's conference list: no title twice, exactly the titles of the
      rows filed under it, in first-encounter order. */
  lemma ConferencesInSpec(rows: seq<Row>, k: string)
    ensures NoDup(ConferencesIn(rows, k))
    ensures forall x :: x in ConferencesIn(rows, k) <==>
              exists i :: 0 <= i < |rows| && Key(rows[i].areaTitle) == k && rows[i].conferenceTitle == x
    ensures forall i, j :: 0 <= i < j < |ConferencesIn(rows, k)| ==>
              HasKey(TitlesUnder(rows, k), Id, ConferencesIn(rows, k)[i]) &&
              HasKey(TitlesUnder(rows, k), Id, ConferencesIn(rows, k)[j]) &&
              FirstKeyIndex(TitlesUnder(rows, k), Id, ConferencesIn(rows, k)[i]) <
              FirstKeyIndex(TitlesUnder(rows, k), Id, ConferencesIn(rows, k)[j])
  {
    var t := TitlesUnder(rows, k);
    DedupSpec(t);
    DedupOnOrder(t, Id);
    forall x ensures x in ConferencesIn(rows, k) <==>
                     exists i :: 0 <= i < |rows| && Key(rows[i].areaTitle) == k && rows[i].conferenceTitle == x
    {
      EntriesUnderIff(rows, AreaKey, Title, k, x);
    }
    forall i, j | 0 <= i < j < |ConferencesIn(rows, k)|
      ensures HasKey(t, Id, ConferencesIn(rows, k)[i]) && HasKey(t, Id, ConferencesIn(rows, k)[j])
    {
      var d := ConferencesIn(rows, k);
      assert Id(d[i]) == d[i] && Id(d[j]) == d[j];
      assert d[i] in d && d[j] in d;
    }
  }

  /** The index is a well-formed dictionary whose keys are exactly the area
      keys of the rows, and every row's title is in its area's list. */
  lemma ConferencesByAreaSpec(rows: seq<Row>)
    ensures ConferencesByArea(rows).Valid()
    ensures forall k :: k in ConferencesByArea(rows).vals <==>
              exists i :: 0 <= i < |rows| && Key(rows[i].areaTitle) == k
    ensures forall i :: 0 <= i < |rows| ==>
              rows[i].conferenceTitle in ListAt(ConferencesByArea(rows), Key(rows[i].areaTitle))
  {
    GroupKeys(rows, AreaKey, Title, Id);
    EveryRowFiled(rows, AreaKey, Title, Id);
    forall i | 0 <= i < |rows|
      ensures rows[i].conferenceTitle in ListAt(ConferencesByArea(rows), Key(rows[i].areaTitle))
    {
      var k := AreaKey(rows[i]);
      assert k in ConferencesByArea(rows).vals;
      HasKeyId(ConferencesIn(rows, k), rows[i].conferenceTitle);
    }
  }

  /** `Object.keys(conferencesMap).forEach(k => final[k] = Array.from(conferencesMap[k]))`:
      the copy has the same keys in the same order and the same lists. */
  method CopyToArrays(conferencesMap: Dict<seq<Cell>>) returns (final: Dict<seq<Cell>>)
    requires conferencesMap.Valid()
    ensures final == conferencesMap
  {
    var keys := conferencesMap.keys;
    final := Empty();
    var j := 0;
    while j < |keys|
      invariant 0 <= j <= |keys|
      invariant final.keys == keys[..j]
      invariant forall k :: k in final.vals <==> k in keys[..j]
      invariant forall k :: k in final.vals ==> k in conferencesMap.vals && final.vals[k] == conferencesMap.vals[k]
    {
      var k := keys[j];
      assert k !in keys[..j] by {
        forall m | 0 <= m < j ensures keys[..j][m] != k {
          assert keys[..j][m] == keys[m];
        }
      }
      final := final.Put(k, conferencesMap.vals[k]);
      assert keys[..j + 1] == keys[..j] + [k];
      j := j + 1;
    }
    assert keys[..j] == keys;
    assert final.vals == conferencesMap.vals;
  }

  /** `Object.values(d)` concatenated, in key order. */
  function Flatten(d: Dict<seq<Cell>>): seq<Cell> {
    FlattenKeys(d.keys, d.vals)
  }

  function FlattenKeys(keys: seq<string>, vals: map<string, seq<Cell>>): seq<Cell> {
    if keys == [] then []
    else
      var k := keys[|keys| - 1];
      FlattenKeys(keys[..|keys| - 1], vals) + (if k in vals then vals[k] else [])
  }

  /** `Object.values(conferencesMap).forEach(s => all.push(...Array.from(s)))`. */
  method CollectNames(conferencesMap: Dict<seq<Cell>>) returns (all: seq<Cell>)
    ensures all == Flatten(conferencesMap)
  {
    all := [];
    var j := 0;
    while j < |conferencesMap.keys|
      invariant 0 <= j <= |conferencesMap.keys|
      invariant all == FlattenKeys(conferencesMap.keys[..j], conferencesMap.vals)
    {
      assert conferencesMap.keys[..j + 1][..j] == conferencesMap.keys[..j];
      all := all + ListAt(conferencesMap, conferencesMap.keys[j]);
      j := j + 1;
    }
    assert conferencesMap.keys[..j] == conferencesMap.keys;
  }

  /** A value is in the concatenation iff it is in the list of some key. */
  lemma {:induction false} FlattenKeysIff(keys: seq<string>, vals: map<string, seq<Cell>>, x: Cell)
    ensures x in FlattenKeys(keys, vals) <==>
            exists j :: 0 <= j < |keys| && keys[j] in vals && x in vals[keys[j]]
  {
    if keys != [] {
      var init := keys[..|keys| - 1];
      FlattenKeysIff(init, vals, x);
      if j :| 0 <= j < |init| && init[j] in vals && x in vals[init[j]] {
        assert keys[j] == init[j];
      }
      if j :| 0 <= j < |keys| && keys[j] in vals && x in vals[keys[j]] {
        if j < |init| {
          assert init[j] == keys[j];
        }
      }
    }
  }

  /** All lists of the index together hold exactly the conference titles of
      the rows. */
  lemma AllTitles(rows: seq<Row>)
    ensures forall x :: x in Flatten(ConferencesByArea(rows)) <==>
              exists i :: 0 <= i < |rows| && rows[i].conferenceTitle == x
  {
    var d := ConferencesByArea(rows);
    ConferencesByAreaSpec(rows);
    forall x ensures x in Flatten(d) <==> exists i :: 0 <= i < |rows| && rows[i].conferenceTitle == x {
      FlattenKeysIff(d.keys, d.vals, x);
      if j :| 0 <= j < |d.keys| && d.keys[j] in d.vals && x in d.vals[d.keys[j]] {
        ConferencesInSpec(rows, d.keys[j]);
      }
      if i :| 0 <= i < |rows| && rows[i].conferenceTitle == x {
        var k := Key(rows[i].areaTitle);
        assert k in d.keys;
        var j :| 0 <= j < |d.keys| && d.keys[j] == k;
        assert x in ListAt(d, k);
      }
    }
  }

  /** How many of the keys list `x`. */
  function Listings(keys: seq<string>, vals: map<string, seq<Cell>>, x: Cell): nat {
    if keys == [] then 0
    else
      var k := keys[|keys| - 1];
      Listings(keys[..|keys| - 1], vals, x) + (if k in vals && x in vals[k] then 1 else 0)
  }

  /** The summed length of the lists of the keys. */
  function TotalLength(keys: seq<string>, vals: map<string, seq<Cell>>): nat {
    if keys == [] then 0
    else
      var k := keys[|keys| - 1];
      TotalLength(keys[..|keys| - 1], vals) + (if k in vals then |vals[k]| else 0)
  }

  /** In a list without repetitions a value occurs once or not at all. */
  lemma {:induction false} NoDupCount(l: seq<Cell>, x: Cell)
    requires NoDup(l)
    ensures multiset(l)[x] == if x in l then 1 else 0
  {
    if l != [] {
      assert l == [l[0]] + l[1..];
      assert NoDup(l[1..]) by {
        forall i, j | 0 <= i < j < |l[1..]| ensures l[1..][i] != l[1..][j] {
          assert l[1..][i] == l[i + 1] && l[1..][j] == l[j + 1];
        }
      }
      NoDupCount(l[1..], x);
      assert multiset(l) == multiset([l[0]]) + multiset(l[1..]);
      if x == l[0] {
        assert x !in l[1..] by {
          forall j | 0 <= j < |l[1..]| ensures l[1..][j] != x {
            assert l[1..][j] == l[j + 1];
          }
        }
      }
    }
  }

  /** The concatenation repeats nothing within one list, but a value listed
      under several keys occurs once per key; its length is the sum of the
      list lengths. */
  lemma {:induction false} FlattenCounts(keys: seq<string>, vals: map<string, seq<Cell>>, x: Cell)
    requires forall k :: k in vals ==> NoDup(vals[k])
    ensures multiset(FlattenKeys(keys, vals))[x] == Listings(keys, vals, x)
    ensures |FlattenKeys(keys, vals)| == TotalLength(keys, vals)
  {
    if keys != [] {
      var k := keys[|keys| - 1];
      FlattenCounts(keys[..|keys| - 1], vals, x);
      var l := if k in vals then vals[k] else [];
      assert multiset(FlattenKeys(keys, vals)) == multiset(FlattenKeys(keys[..|keys| - 1], vals)) + multiset(l);
      if k in vals {
        NoDupCount(l, x);
      }
    }
  }
}
