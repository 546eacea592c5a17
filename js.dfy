/** The few JavaScript value semantics the dashboard relies on:
    `undefined`, truthiness, property keys of plain objects, insertion-ordered
    objects used as dictionaries, ASCII `toLowerCase` and `String.includes`. */
module Js {
  import opened Seqs

  datatype Option<+T> = None | Some(value: T)

  /** A cell of a parsed CSV row, or a raw string field: `None` is `undefined`
      (the column is missing from that row). */
  type Cell = Option<string>

  /** `if (v)` on a string-or-undefined value: both `undefined` and `""` are falsy. */
  predicate Truthy(c: Cell) {
    c.Some? && c.value != ""
  }

  /** The property key a value becomes in `obj[v]`: `undefined` turns into the
      string "undefined", a string is its own key. */
  function Key(c: Cell): string {
    match c
    case None => "undefined"
    case Some(s) => s
  }

  /** A plain object used as a dictionary: string keys in insertion order
      (`Object.keys`, `Object.values`) and the value stored under each. */
  datatype Dict<V> = Dict(keys: seq<string>, vals: map<string, V>) {

    ghost predicate Valid() {
      NoDup(keys) && forall k :: k in vals <==> k in keys
    }

    /** `obj[k] = v`: a new key goes to the end of the key order, an existing
        key keeps its place. */
    function Put(k: string, v: V): (d: Dict<V>)
      ensures Valid() ==> d.Valid()
      ensures d.keys == if k in vals then keys else keys + [k]
      ensures k in d.vals && d.vals[k] == v
      ensures forall k' :: k' != k ==> (k' in d.vals <==> k' in vals)
      ensures forall k' :: k' != k && k' in vals ==> d.vals[k'] == vals[k']
    {
      if k in vals then Dict(keys, vals[k := v]) else Dict(keys + [k], vals[k := v])
    }
  }

  function Empty<V>(): (d: Dict<V>)
    ensures d.Valid() && d.keys == [] && d.vals == map[]
  {
    Dict([], map[])
  }

  /** `obj[k] || []` for an object whose values are (non-null) arrays. */
  function ListAt<V>(d: Dict<seq<V>>, k: string): seq<V> {
    if k in d.vals then d.vals[k] else []
  }

  function LowerChar(c: char): char {
    if 'A' <= c <= 'Z' then (c as int - 'A' as int + 'a' as int) as char else c
  }

  /** `s.toLowerCase()`, restricted to ASCII letters. */
  function Lower(s: string): (r: string)
    ensures |r| == |s|
    ensures forall i :: 0 <= i < |s| ==> r[i] == LowerChar(s[i])
  {
    if s == [] then [] else [LowerChar(s[0])] + Lower(s[1..])
  }

  lemma {:induction false} LowerIdempotent(s: string)
    ensures Lower(Lower(s)) == Lower(s)
  {
    var l := Lower(s);
    assert forall i :: 0 <= i < |s| ==> LowerChar(l[i]) == l[i];
  }

  predicate StartsWith(s: string, prefix: string) {
    |prefix| <= |s| && s[..|prefix|] == prefix
  }

  /** `s.includes(needle)`, searching from the left. */
  predicate Includes(s: string, needle: string) {
    StartsWith(s, needle) || (s != [] && Includes(s[1..], needle))
  }

  ghost predicate OccursAt(s: string, needle: string, i: int) {
    0 <= i && i + |needle| <= |s| && s[i..i + |needle|] == needle
  }

  /** `Includes` finds exactly the substrings: the needle occurs at some position. */
  lemma {:induction false} IncludesIff(s: string, needle: string)
    ensures Includes(s, needle) <==> exists i :: OccursAt(s, needle, i)
  {
    if s != [] {
      IncludesIff(s[1..], needle);
      if StartsWith(s, needle) {
        assert OccursAt(s, needle, 0);
      }
      if Includes(s[1..], needle) {
        var i :| OccursAt(s[1..], needle, i);
        assert s[1..][i..i + |needle|] == s[i + 1..i + 1 + |needle|];
        assert OccursAt(s, needle, i + 1);
      }
      if i :| OccursAt(s, needle, i) {
        if i > 0 {
          assert s[1..][i - 1..i - 1 + |needle|] == s[i..i + |needle|];
          assert OccursAt(s[1..], needle, i - 1);
        } else {
          assert StartsWith(s, needle);
        }
      }
    } else if needle == [] {
      assert OccursAt(s, needle, 0);
    }
  }
}
