/** `filterConferences` of src/App.js: keep the selected conferences whose
    name contains the search text (ASCII case ignored), then order them with
    upcoming deadlines first, earliest first.

    The comparator handed to `Array.prototype.sort` is `Cmp`. On valid
    deadlines it orders by the key "upcoming, by deadline; then everything
    else, all equal", and the engine's sort is stable, so the result is the
    stable sort by that key: `SortByDeadline`. A missing or unparseable
    deadline makes every comparison with NaN false; the model puts such
    conferences with the passed ones (see `CmpInconsistent`). `now` is one
    fixed clock reading. */
module Pipeline {
  import opened Js
  import opened Conferences

  /** The filter callback: `selected.includes(conf.name) &&
      conf.name.toLowerCase().includes(searchQuery.toLowerCase())`. */
  function Matches(c: Conference, selected: set<Cell>, query: string): (r: bool)
    ensures r ==> Some(c.name) in selected
    ensures query == [] ==> (r <==> Some(c.name) in selected)
  {
    Some(c.name) in selected && Includes(Lower(c.name), Lower(query))
  }

  /** `conferences.filter(Matches)`. */
  function Filter(cs: seq<Conference>, selected: set<Cell>, query: string): (r: seq<Conference>)
    ensures |r| <= |cs|
    ensures forall c :: c in r ==> c in cs && Matches(c, selected, query)
  {
    if cs == [] then []
    else
      var c := cs[|cs| - 1];
      Filter(cs[..|cs| - 1], selected, query) + (if Matches(c, selected, query) then [c] else [])
  }

  /** Filtering a concatenation filters each part: the kept conferences stay
      in their original relative order. */
  lemma {:induction false} FilterAppend(a: seq<Conference>, b: seq<Conference>, selected: set<Cell>, query: string)
    ensures Filter(a + b, selected, query) == Filter(a, selected, query) + Filter(b, selected, query)
  {
    if b != [] {
      var b' := b[..|b| - 1];
      FilterAppend(a, b', selected, query);
      assert (a + b)[..|a + b| - 1] == a + b';
    } else {
      assert a + b == a;
    }
  }

  /** Exactly the matching conferences are kept, each as often as it occurs. */
  lemma {:induction false} FilterCount(cs: seq<Conference>, selected: set<Cell>, query: string, c: Conference)
    ensures multiset(Filter(cs, selected, query))[c] == if Matches(c, selected, query) then multiset(cs)[c] else 0
  {
    if cs != [] {
      var init := cs[..|cs| - 1];
      FilterCount(init, selected, query, c);
      assert cs == init + [cs[|cs| - 1]];
    }
  }

  /** The search is a substring test that ignores ASCII case on both sides. */
  lemma MatchesIff(c: Conference, selected: set<Cell>, query: string)
    ensures Matches(c, selected, query) <==>
              Some(c.name) in selected && exists i :: OccursAt(Lower(c.name), Lower(query), i)
    ensures Matches(c, selected, query) == Matches(c, selected, Lower(query))
  {
    var name, q := Lower(c.name), Lower(query);
    IncludesIff(name, q);
    assert Matches(c, selected, query) == (Some(c.name) in selected && Includes(name, q));
    assert Includes(name, q) <==> exists i :: OccursAt(name, q, i);
    assert name == Lower(c.name);
    LowerIdempotent(query);
  }

  /** The deadline is valid and after `now`. */
  predicate Upcoming(c: Conference, now: int) {
    After(c.deadline, now)
  }

  /** `a` may come before `b`: the sort key of `a` is at most that of `b`. */
  predicate KeyLe(a: Conference, b: Conference, now: int) {
    if Upcoming(a, now) then !Upcoming(b, now) || a.deadline.ms <= b.deadline.ms
    else !Upcoming(b, now)
  }

  /** The comparator of src/App.js, with `new Date(x) > now` and
      `new Date(x) <= now` both false for a NaN time. */
  function Cmp(a: Conference, b: Conference, now: int): (r: int)
    ensures r < 0 <==> After(a.deadline, now) && (After(b.deadline, now) ==> a.deadline.ms < b.deadline.ms)
    ensures r == 0 <==> (After(a.deadline, now) && After(b.deadline, now) && a.deadline.ms == b.deadline.ms) ||
                        (AtOrBefore(a.deadline, now) && AtOrBefore(b.deadline, now))
  {
    if After(a.deadline, now) && After(b.deadline, now) then a.deadline.ms - b.deadline.ms
    else if AtOrBefore(a.deadline, now) && AtOrBefore(b.deadline, now) then 0
    else if After(a.deadline, now) then -1
    else 1
  }

  /** Inserts `x` after every element whose key is not above its own. */
  function Insert(s: seq<Conference>, x: Conference, now: int): (r: seq<Conference>)
    ensures |r| == |s| + 1
  {
    if s == [] || KeyLe(s[|s| - 1], x, now) then s + [x]
    else Insert(s[..|s| - 1], x, now) + [s[|s| - 1]]
  }

  /** The stable sort by `KeyLe`: insertion of each element in turn. */
  function SortByDeadline(cs: seq<Conference>, now: int): (r: seq<Conference>)
    ensures |r| == |cs|
  {
    if cs == [] then [] else Insert(SortByDeadline(cs[..|cs| - 1], now), cs[|cs| - 1], now)
  }

  ghost predicate Sorted(s: seq<Conference>, now: int) {
    forall i, j :: 0 <= i < j < |s| ==> KeyLe(s[i], s[j], now)
  }

  /** The key order is total and transitive. */
  lemma KeyLeTotalPreorder(a: Conference, b: Conference, c: Conference, now: int)
    ensures KeyLe(a, b, now) || KeyLe(b, a, now)
    ensures KeyLe(a, b, now) && KeyLe(b, c, now) ==> KeyLe(a, c, now)
  {
  }

  /** On valid deadlines the comparator's sign is the key order:
      negative exactly when `a` must precede `b`, zero exactly when the keys tie. */
  lemma CmpAgrees(a: Conference, b: Conference, now: int)
    requires a.deadline.At? && b.deadline.At?
    ensures Cmp(a, b, now) <= 0 <==> KeyLe(a, b, now)
    ensures Cmp(a, b, now) < 0 <==> !KeyLe(b, a, now)
    ensures Cmp(a, b, now) == -Cmp(b, a, now)
  {
  }

  /** Two conferences without a valid deadline, or one without and one whose
      deadline has passed, each compare as greater than the other. */
  lemma CmpInconsistent(a: Conference, b: Conference, now: int)
    requires !a.deadline.At? && !After(b.deadline, now)
    ensures Cmp(a, b, now) == 1 && Cmp(b, a, now) == 1
  {
  }

  lemma {:induction false} InsertCount(s: seq<Conference>, x: Conference, now: int)
    ensures multiset(Insert(s, x, now)) == multiset(s) + multiset{x}
  {
    if s != [] && !KeyLe(s[|s| - 1], x, now) {
      InsertCount(s[..|s| - 1], x, now);
      assert s == s[..|s| - 1] + [s[|s| - 1]];
    }
  }

  lemma {:induction false} InsertSorted(s: seq<Conference>, x: Conference, now: int)
    requires Sorted(s, now)
    ensures Sorted(Insert(s, x, now), now)
  {
    if s == [] || KeyLe(s[|s| - 1], x, now) {
      var r := s + [x];
      forall i, j | 0 <= i < j < |r| ensures KeyLe(r[i], r[j], now) {
        if j == |s| {
          KeyLeTotalPreorder(r[i], s[|s| - 1], x, now);
        }
      }
    } else {
      var init, last := s[..|s| - 1], s[|s| - 1];
      InsertSorted(init, x, now);
      InsertCount(init, x, now);
      var t := Insert(init, x, now);
      var r := t + [last];
      forall i, j | 0 <= i < j < |r| ensures KeyLe(r[i], r[j], now) {
        if j == |t| {
          // r[i] is x or an element of init, and both have keys at most last's
          assert r[i] in multiset(t);
          KeyLeTotalPreorder(last, x, x, now);
          if r[i] != x {
            assert r[i] in multiset(init);
            var k :| 0 <= k < |init| && init[k] == r[i];
            assert s[k] == r[i];
          }
        }
      }
    }
  }

  /** The result is a permutation of the input. */
  lemma {:induction false} SortPermutes(cs: seq<Conference>, now: int)
    ensures multiset(SortByDeadline(cs, now)) == multiset(cs)
  {
    if cs != [] {
      var init := cs[..|cs| - 1];
      SortPermutes(init, now);
      InsertCount(SortByDeadline(init, now), cs[|cs| - 1], now);
      assert cs == init + [cs[|cs| - 1]];
    }
  }

  /** The result is ordered by the key: upcoming conferences first, in
      ascending deadline order, then all the others. */
  lemma {:induction false} SortOrders(cs: seq<Conference>, now: int)
    ensures Sorted(SortByDeadline(cs, now), now)
    ensures forall i, j :: 0 <= i < j < |SortByDeadline(cs, now)| && Upcoming(SortByDeadline(cs, now)[j], now) ==>
              Upcoming(SortByDeadline(cs, now)[i], now) &&
              SortByDeadline(cs, now)[i].deadline.ms <= SortByDeadline(cs, now)[j].deadline.ms
  {
    if cs != [] {
      SortOrders(cs[..|cs| - 1], now);
      InsertSorted(SortByDeadline(cs[..|cs| - 1], now), cs[|cs| - 1], now);
    }
  }

  /** The conferences whose key ties with that of `x`, in order. */
  function Tied(s: seq<Conference>, x: Conference, now: int): seq<Conference> {
    if s == [] then []
    else
      var c := s[|s| - 1];
      Tied(s[..|s| - 1], x, now) + (if KeyLe(c, x, now) && KeyLe(x, c, now) then [c] else [])
  }

  lemma {:induction false} TiedAppend(a: seq<Conference>, b: seq<Conference>, x: Conference, now: int)
    ensures Tied(a + b, x, now) == Tied(a, x, now) + Tied(b, x, now)
  {
    if b != [] {
      var b' := b[..|b| - 1];
      TiedAppend(a, b', x, now);
      assert (a + b)[..|a + b| - 1] == a + b';
    } else {
      assert a + b == a;
    }
  }

  lemma {:induction false} InsertTied(s: seq<Conference>, y: Conference, x: Conference, now: int)
    ensures Tied(Insert(s, y, now), x, now) == Tied(s + [y], x, now)
  {
    if s != [] && !KeyLe(s[|s| - 1], y, now) {
      var init, last := s[..|s| - 1], s[|s| - 1];
      var ty := if KeyLe(y, x, now) && KeyLe(x, y, now) then [y] else [];
      var tl := if KeyLe(last, x, now) && KeyLe(x, last, now) then [last] else [];
      // y and last never both tie with x: last's key is above y's
      assert ty == [] || tl == [] by {
        KeyLeTotalPreorder(last, x, y, now);
      }
      var t := Insert(init, y, now);
      calc {
        Tied(Insert(s, y, now), x, now);
        Tied(t + [last], x, now);
        { assert (t + [last])[..|t|] == t; }
        Tied(t, x, now) + tl;
        { InsertTied(init, y, x, now); }
        Tied(init + [y], x, now) + tl;
        { assert (init + [y])[..|init|] == init; }
        Tied(init, x, now) + ty + tl;
        Tied(init, x, now) + tl + ty;
        { assert s[..|s| - 1] == init; }
        Tied(s, x, now) + ty;
        { assert (s + [y])[..|s|] == s; }
        Tied(s + [y], x, now);
      }
    } else {
      assert Insert(s, y, now) == s + [y];
    }
  }

  /** The sort is stable: conferences with equal keys (in particular all the
      non-upcoming ones) keep their original relative order. */
  lemma {:induction false} SortStable(cs: seq<Conference>, x: Conference, now: int)
    ensures Tied(SortByDeadline(cs, now), x, now) == Tied(cs, x, now)
  {
    if cs != [] {
      var init, last := cs[..|cs| - 1], cs[|cs| - 1];
      var sorted := SortByDeadline(init, now);
      var tail := if KeyLe(last, x, now) && KeyLe(x, last, now) then [last] else [];
      calc {
        Tied(SortByDeadline(cs, now), x, now);
        Tied(Insert(sorted, last, now), x, now);
        { InsertTied(sorted, last, x, now); }
        Tied(sorted + [last], x, now);
        { assert (sorted + [last])[..|sorted|] == sorted; }
        Tied(sorted, x, now) + tail;
        { SortStable(init, x, now); }
        Tied(init, x, now) + tail;
      }
    }
  }

  /** When every deadline is valid, each earlier conference compares at most
      equal to each later one under the source's comparator. */
  lemma SortedByCmp(cs: seq<Conference>, now: int)
    requires forall c :: c in cs ==> c.deadline.At?
    ensures forall i, j :: 0 <= i < j < |SortByDeadline(cs, now)| ==>
              Cmp(SortByDeadline(cs, now)[i], SortByDeadline(cs, now)[j], now) <= 0
  {
    var s := SortByDeadline(cs, now);
    SortOrders(cs, now);
    SortPermutes(cs, now);
    forall i, j | 0 <= i < j < |s| ensures Cmp(s[i], s[j], now) <= 0 {
      assert s[i] in multiset(cs) && s[j] in multiset(cs);
      CmpAgrees(s[i], s[j], now);
    }
  }

  /** The body of `filterConferences`: the list it stores. */
  function FilterConferences(conferences: seq<Conference>, selected: set<Cell>, query: string, now: int): (r: seq<Conference>)
    ensures |r| <= |conferences|
    ensures forall c :: c in r ==> c in conferences && Matches(c, selected, query)
  {
    var kept := Filter(conferences, selected, query);
    SortPermutes(kept, now);
    assert forall c :: c in SortByDeadline(kept, now) ==> c in multiset(kept);
    SortByDeadline(kept, now)
  }

  /** The list shown holds each matching conference as often as the loaded
      list does and nothing else, upcoming deadlines first in ascending
      order, then the others. */
  lemma ShownConferences(conferences: seq<Conference>, selected: set<Cell>, query: string, now: int)
    ensures forall c :: multiset(FilterConferences(conferences, selected, query, now))[c] ==
              if Matches(c, selected, query) then multiset(conferences)[c] else 0
    ensures Sorted(FilterConferences(conferences, selected, query, now), now)
    ensures var r := FilterConferences(conferences, selected, query, now);
            forall i, j :: 0 <= i < j < |r| && Upcoming(r[j], now) ==>
              Upcoming(r[i], now) && r[i].deadline.ms <= r[j].deadline.ms
  {
    var kept := Filter(conferences, selected, query);
    SortPermutes(kept, now);
    SortOrders(kept, now);
    forall c ensures multiset(kept)[c] == if Matches(c, selected, query) then multiset(conferences)[c] else 0 {
      FilterCount(conferences, selected, query, c);
    }
  }
}
