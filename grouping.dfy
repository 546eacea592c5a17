/** Grouping rows under a string key with per-group de-duplication.

    Every row-folding loop of the dashboard has the same shape:

      rows.forEach(row => {
        if (!map[parent(row)]) map[parent(row)] = [];          // or new Set()
        if (!map[parent(row)].some(e => key(e) === key(entry(row))))
          map[parent(row)].push(entry(row));                   // or Set.add
      });

    `Group` states the map this produces from the whole row list, without a
    loop; `File` is one iteration and `Fold` the loop, and `FoldIsGroup`
    proves that they agree. The remaining lemmas say what a group holds. */
module Grouping {
  import opened Js
  import opened Seqs

  /** The key each row is filed under, row by row. */
  function Parents<R>(rows: seq<R>, parent: R -> string): (ps: seq<string>)
    ensures |ps| == |rows|
    ensures forall i :: 0 <= i < |rows| ==> ps[i] == parent(rows[i])
  {
    if rows == [] then []
    else Parents(rows[..|rows| - 1], parent) + [parent(rows[|rows| - 1])]
  }

  /** The entries of the rows filed under `p`, in row order, repetitions included. */
  function EntriesUnder<R, E>(rows: seq<R>, parent: R -> string, entry: R -> E, p: string): seq<E> {
    if rows == [] then []
    else
      var r := rows[|rows| - 1];
      EntriesUnder(rows[..|rows| - 1], parent, entry, p) + (if parent(r) == p then [entry(r)] else [])
  }

  /** The list stored under `p` once every row has been filed: the first entry
      for each key. */
  function GroupUnder<R, E, K(==)>(rows: seq<R>, parent: R -> string, entry: R -> E, key: E -> K, p: string): seq<E> {
    DedupOn(EntriesUnder(rows, parent, entry, p), key)
  }

  /** The whole map: keys in the order first met, each with its list. */
  function Group<R, E, K(==)>(rows: seq<R>, parent: R -> string, entry: R -> E, key: E -> K): Dict<seq<E>> {
    Dict(Dedup(Parents(rows, parent)),
         map p | p in Parents(rows, parent) :: GroupUnder(rows, parent, entry, key, p))
  }

  /** One iteration of the loop: create the list if the key is new, then
      append the entry unless one with the same key is already there. */
  ghost function File<R, E, K>(d: Dict<seq<E>>, r: R, parent: R -> string, entry: R -> E, key: E -> K): Dict<seq<E>> {
    var p := parent(r);
    var l := ListAt(d, p);
    Dict(if p in d.vals then d.keys else d.keys + [p],
         d.vals[p := if HasKey(l, key, key(entry(r))) then l else l + [entry(r)]])
  }

  /** The loop's state after the given rows. */
  ghost function Fold<R, E, K>(rows: seq<R>, parent: R -> string, entry: R -> E, key: E -> K): Dict<seq<E>> {
    if rows == [] then Empty()
    else File(Fold(rows[..|rows| - 1], parent, entry, key), rows[|rows| - 1], parent, entry, key)
  }

  lemma ParentsStep<R>(rows: seq<R>, i: nat, parent: R -> string)
    requires i < |rows|
    ensures Parents(rows[..i + 1], parent) == Parents(rows[..i], parent) + [parent(rows[i])]
  {
    assert rows[..i + 1][..i] == rows[..i];
  }

  /** Filing row `i`: its entry is appended under its key iff no entry with the
      same key is there yet. */
  lemma GroupUnderStep<R, E, K>(rows: seq<R>, i: nat, parent: R -> string, entry: R -> E, key: E -> K, p: string)
    requires i < |rows|
    ensures GroupUnder(rows[..i + 1], parent, entry, key, p) ==
            if parent(rows[i]) == p && !HasKey(GroupUnder(rows[..i], parent, entry, key, p), key, key(entry(rows[i])))
            then GroupUnder(rows[..i], parent, entry, key, p) + [entry(rows[i])]
            else GroupUnder(rows[..i], parent, entry, key, p)
  {
    assert rows[..i + 1][..i] == rows[..i];
    var es := EntriesUnder(rows[..i], parent, entry, p);
    assert EntriesUnder(rows[..i + 1], parent, entry, p) ==
           es + (if parent(rows[i]) == p then [entry(rows[i])] else []);
    if parent(rows[i]) == p {
      DedupOnStep(es, entry(rows[i]), key);
    } else {
      assert EntriesUnder(rows[..i + 1], parent, entry, p) == es;
    }
  }

  lemma {:induction false} NothingUnderUnseenKey<R, E>(rows: seq<R>, parent: R -> string, entry: R -> E, p: string)
    requires p !in Parents(rows, parent)
    ensures EntriesUnder(rows, parent, entry, p) == []
  {
    if rows != [] {
      var init := rows[..|rows| - 1];
      assert Parents(rows, parent) == Parents(init, parent) + [parent(rows[|rows| - 1])];
      NothingUnderUnseenKey(init, parent, entry, p);
    }
  }

  /** `d` is the map built from the first `i` rows, stated key by key. */
  ghost predicate GroupInv<R, E, K>(d: Dict<seq<E>>, rows: seq<R>, i: nat, parent: R -> string, entry: R -> E, key: E -> K)
    requires i <= |rows|
  {
    && d.keys == Dedup(Parents(rows[..i], parent))
    && (forall p :: p in d.vals <==> p in Parents(rows[..i], parent))
    && (forall p :: p in d.vals ==> d.vals[p] == GroupUnder(rows[..i], parent, entry, key, p))
  }

  lemma GroupKeysStep<R, E, K>(rows: seq<R>, i: nat, parent: R -> string, entry: R -> E, key: E -> K,
                               before: Dict<seq<E>>, after: Dict<seq<E>>)
    requires i < |rows| && GroupInv(before, rows, i, parent, entry, key)
    requires after == File(before, rows[i], parent, entry, key)
    ensures after.keys == Dedup(Parents(rows[..i + 1], parent))
    ensures forall q :: q in after.vals <==> q in Parents(rows[..i + 1], parent)
  {
    ParentsStep(rows, i, parent);
    DedupStep(Parents(rows[..i], parent), parent(rows[i]));
    DedupSpec(Parents(rows[..i], parent));
  }

  lemma GroupValsStep<R, E, K>(rows: seq<R>, i: nat, parent: R -> string, entry: R -> E, key: E -> K,
                               before: Dict<seq<E>>, after: Dict<seq<E>>)
    requires i < |rows| && GroupInv(before, rows, i, parent, entry, key)
    requires after == File(before, rows[i], parent, entry, key)
    ensures forall q :: q in after.vals ==> after.vals[q] == GroupUnder(rows[..i + 1], parent, entry, key, q)
  {
    var p := parent(rows[i]);
    if p !in before.vals {
      NothingUnderUnseenKey(rows[..i], parent, entry, p);
      assert ListAt(before, p) == [] == GroupUnder(rows[..i], parent, entry, key, p);
    } else {
      assert ListAt(before, p) == GroupUnder(rows[..i], parent, entry, key, p);
    }
    forall q | q in after.vals ensures after.vals[q] == GroupUnder(rows[..i + 1], parent, entry, key, q) {
      GroupUnderStep(rows, i, parent, entry, key, q);
    }
  }

  /** Filing row `i` into the map of the first `i` rows gives the map of the
      first `i + 1` rows. */
  lemma GroupStep<R, E, K>(rows: seq<R>, i: nat, parent: R -> string, entry: R -> E, key: E -> K)
    requires i < |rows|
    ensures File(Group(rows[..i], parent, entry, key), rows[i], parent, entry, key) ==
            Group(rows[..i + 1], parent, entry, key)
  {
    var before := Group(rows[..i], parent, entry, key);
    var after := File(before, rows[i], parent, entry, key);
    assert GroupInv(before, rows, i, parent, entry, key);
    GroupKeysStep(rows, i, parent, entry, key, before, after);
    GroupValsStep(rows, i, parent, entry, key, before, after);
    assert after.vals == Group(rows[..i + 1], parent, entry, key).vals;
  }

  /** The loop computes `Group`. */
  lemma {:induction false} FoldIsGroup<R, E, K>(rows: seq<R>, parent: R -> string, entry: R -> E, key: E -> K)
    ensures Fold(rows, parent, entry, key) == Group(rows, parent, entry, key)
  {
    if rows == [] {
      assert Group(rows, parent, entry, key) == Empty();
    } else {
      var n := |rows| - 1;
      FoldIsGroup(rows[..n], parent, entry, key);
      GroupStep(rows, n, parent, entry, key);
      assert rows[..n + 1] == rows;
    }
  }

  /** The map is a well-formed dictionary whose keys are exactly the keys the
      rows are filed under, each once, in the order first met. */
  lemma GroupKeys<R, E, K>(rows: seq<R>, parent: R -> string, entry: R -> E, key: E -> K)
    ensures Group(rows, parent, entry, key).Valid()
    ensures forall p :: p in Group(rows, parent, entry, key).vals <==>
              exists i :: 0 <= i < |rows| && parent(rows[i]) == p
  {
    var ps := Parents(rows, parent);
    DedupSpec(ps);
    forall p | p in Group(rows, parent, entry, key).vals
      ensures exists i :: 0 <= i < |rows| && parent(rows[i]) == p
    {
      var i :| 0 <= i < |ps| && ps[i] == p;
    }
    forall i | 0 <= i < |rows| ensures parent(rows[i]) in Group(rows, parent, entry, key).vals {
      assert ps[i] == parent(rows[i]);
    }
  }

  /** Within one list no two entries share a key. */
  lemma GroupDistinct<R, E, K>(rows: seq<R>, parent: R -> string, entry: R -> E, key: E -> K, p: string)
    ensures forall i, j :: 0 <= i < j < |GroupUnder(rows, parent, entry, key, p)| ==>
              key(GroupUnder(rows, parent, entry, key, p)[i]) != key(GroupUnder(rows, parent, entry, key, p)[j])
  {
    DedupOnDistinct(EntriesUnder(rows, parent, entry, p), key);
  }

  /** Row `i`'s list holds an entry with the key of row `i`'s own entry. */
  ghost predicate Filed<R, E, K>(rows: seq<R>, parent: R -> string, entry: R -> E, key: E -> K, i: int) {
    0 <= i < |rows| && HasKey(GroupUnder(rows, parent, entry, key, parent(rows[i])), key, key(entry(rows[i])))
  }

  /** Filing one more row keeps every earlier row represented and represents the new one. */
  lemma FiledStep<R, E, K>(rows: seq<R>, parent: R -> string, entry: R -> E, key: E -> K, i: int)
    requires 0 <= i < |rows|
    requires i < |rows| - 1 ==> Filed(rows[..|rows| - 1], parent, entry, key, i)
    ensures Filed(rows, parent, entry, key, i)
  {
    var n := |rows| - 1;
    var p := parent(rows[i]);
    GroupUnderStep(rows, n, parent, entry, key, p);
    assert rows[..n + 1] == rows;
    var a := GroupUnder(rows[..n], parent, entry, key, p);
    var b := GroupUnder(rows, parent, entry, key, p);
    if i < n {
      assert rows[..n][i] == rows[i];
      var j :| 0 <= j < |a| && key(a[j]) == key(entry(rows[i]));
      assert b[j] == a[j];
    } else if !HasKey(a, key, key(entry(rows[i]))) {
      assert b[|a|] == entry(rows[i]);
    }
  }

  lemma {:induction false} AllFiled<R, E, K>(rows: seq<R>, parent: R -> string, entry: R -> E, key: E -> K)
    ensures forall i :: 0 <= i < |rows| ==> Filed(rows, parent, entry, key, i)
  {
    if rows != [] {
      AllFiled(rows[..|rows| - 1], parent, entry, key);
      forall i | 0 <= i < |rows| ensures Filed(rows, parent, entry, key, i) {
        FiledStep(rows, parent, entry, key, i);
      }
    }
  }

  /** Every row is represented: its list holds an entry with the key of its own entry. */
  lemma EveryRowFiled<R, E, K>(rows: seq<R>, parent: R -> string, entry: R -> E, key: E -> K)
    ensures forall i :: 0 <= i < |rows| ==>
              HasKey(GroupUnder(rows, parent, entry, key, parent(rows[i])), key, key(entry(rows[i])))
  {
    AllFiled(rows, parent, entry, key);
    forall i | 0 <= i < |rows|
      ensures HasKey(GroupUnder(rows, parent, entry, key, parent(rows[i])), key, key(entry(rows[i])))
    {
      assert Filed(rows, parent, entry, key, i);
    }
  }

  /** Row `i` is filed under `p` with entry `e`, and no earlier row filed
      under `p` has an entry with the same key. */
  ghost predicate FirstOfKey<R, E, K>(rows: seq<R>, parent: R -> string, entry: R -> E, key: E -> K, p: string, e: E, i: int) {
    0 <= i < |rows| && parent(rows[i]) == p && entry(rows[i]) == e &&
    forall j :: 0 <= j < i && parent(rows[j]) == p ==> key(entry(rows[j])) != key(e)
  }

  /** Every stored entry is the entry of the FIRST row filed under `p` with
      that key; later rows with the same key never replace it. */
  lemma {:induction false} FirstRowKept<R, E, K>(rows: seq<R>, parent: R -> string, entry: R -> E, key: E -> K, p: string)
    ensures forall e :: e in GroupUnder(rows, parent, entry, key, p) ==>
              exists i :: FirstOfKey(rows, parent, entry, key, p, e, i)
  {
    if rows != [] {
      var n := |rows| - 1;
      var init := rows[..n];
      var before := GroupUnder(init, parent, entry, key, p);
      FirstRowKept(init, parent, entry, key, p);
      GroupUnderStep(rows, n, parent, entry, key, p);
      assert rows[..n + 1] == rows;
      forall e | e in GroupUnder(rows, parent, entry, key, p)
        ensures exists i :: FirstOfKey(rows, parent, entry, key, p, e, i)
      {
        if e in before {
          var i :| FirstOfKey(init, parent, entry, key, p, e, i);
          assert FirstOfKey(rows, parent, entry, key, p, e, i) by {
            assert forall j :: 0 <= j <= i ==> rows[j] == init[j];
          }
        } else {
          assert e == entry(rows[n]) && !HasKey(before, key, key(e));
          assert FirstOfKey(rows, parent, entry, key, p, e, n) by {
            forall j | 0 <= j < n && parent(rows[j]) == p
              ensures key(entry(rows[j])) != key(e)
            {
              assert init[j] == rows[j];
              EveryRowFiled(init, parent, entry, key);
            }
          }
        }
      }
    }
  }

  /** An entry is in a list only if some row filed under that key carries it. */
  lemma {:induction false} EntriesUnderIff<R, E>(rows: seq<R>, parent: R -> string, entry: R -> E, p: string, x: E)
    ensures x in EntriesUnder(rows, parent, entry, p) <==>
            exists i :: 0 <= i < |rows| && parent(rows[i]) == p && entry(rows[i]) == x
  {
    if rows != [] {
      var init := rows[..|rows| - 1];
      EntriesUnderIff(init, parent, entry, p, x);
      if i :| 0 <= i < |rows| && parent(rows[i]) == p && entry(rows[i]) == x {
        if i < |init| {
          assert init[i] == rows[i];
        }
      }
      if i :| 0 <= i < |init| && parent(init[i]) == p && entry(init[i]) == x {
        assert rows[i] == init[i];
      }
    }
  }
}
