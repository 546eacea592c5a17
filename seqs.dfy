/** Sequences without repetitions, and first-occurrence de-duplication.

    A JavaScript `Set` that is only ever added to, read back with
    `Array.from`, is the list of its distinct elements in the order they
    were first added. The dashboard also keeps lists "with no two entries
    sharing a key" (areas keyed by title, or by title, year and note), which
    is the same construction with a key function. Both are `DedupOn` below. */
module Seqs {

  predicate NoDup<T(==)>(s: seq<T>) {
    forall i, j :: 0 <= i < j < |s| ==> s[i] != s[j]
  }

  /** Some element of `s` has key `k` (JavaScript's `s.some(e => key(e) === k)`). */
  predicate HasKey<T, K(==)>(s: seq<T>, key: T -> K, k: K) {
    exists i :: 0 <= i < |s| && key(s[i]) == k
  }

  /** The index of the first element of `s` whose key is `k`. */
  function FirstKeyIndex<T, K(==)>(s: seq<T>, key: T -> K, k: K): (i: nat)
    requires HasKey(s, key, k)
    ensures i < |s| && key(s[i]) == k
    ensures forall j :: 0 <= j < i ==> key(s[j]) != k
  {
    if key(s[0]) == k then 0
    else
      assert HasKey(s[1..], key, k) by {
        var i :| 0 <= i < |s| && key(s[i]) == k;
        assert key(s[1..][i - 1]) == k;
      }
      1 + FirstKeyIndex(s[1..], key, k)
  }

  /** Walk `s` from left to right and keep an element only when no element
      kept before it has the same key. */
  function DedupOn<T, K(==)>(s: seq<T>, key: T -> K): seq<T>
  {
    if s == [] then []
    else
      var d := DedupOn(s[..|s| - 1], key);
      if HasKey(d, key, key(s[|s| - 1])) then d else d + [s[|s| - 1]]
  }

  function Id<T>(x: T): T { x }

  /** The distinct elements of `s` in first-occurrence order. */
  function Dedup<T(==)>(s: seq<T>): seq<T> {
    DedupOn(s, Id)
  }

  /** One more element at the end: it is kept iff its key is new. */
  lemma DedupOnStep<T, K>(s: seq<T>, x: T, key: T -> K)
    ensures DedupOn(s + [x], key) ==
            if HasKey(DedupOn(s, key), key, key(x)) then DedupOn(s, key)
            else DedupOn(s, key) + [x]
  {
    assert (s + [x])[..|s + [x]| - 1] == s;
  }

  lemma DedupStep<T>(s: seq<T>, x: T)
    ensures Dedup(s + [x]) == if x in Dedup(s) then Dedup(s) else Dedup(s) + [x]
  {
    DedupOnStep(s, x, Id);
    HasKeyId(Dedup(s), x);
  }

  lemma HasKeyId<T>(s: seq<T>, x: T)
    ensures HasKey(s, Id, x) <==> x in s
  {
    if x in s {
      var i :| 0 <= i < |s| && s[i] == x;
      assert Id(s[i]) == x;
    }
  }

  /** Every key of `s` is the key of some kept element. */
  lemma {:induction false} DedupOnCovers<T, K>(s: seq<T>, key: T -> K)
    ensures forall i :: 0 <= i < |s| ==> HasKey(DedupOn(s, key), key, key(s[i]))
  {
    if s != [] {
      var s', x := s[..|s| - 1], s[|s| - 1];
      assert s == s' + [x];
      DedupOnCovers(s', key);
      DedupOnStep(s', x, key);
      var d', d := DedupOn(s', key), DedupOn(s, key);
      forall i | 0 <= i < |s|
        ensures HasKey(d, key, key(s[i]))
      {
        if i < |s'| {
          assert s[i] == s'[i];
          var j :| 0 <= j < |d'| && key(d'[j]) == key(s'[i]);
          assert d[j] == d'[j];
        } else if !HasKey(d', key, key(x)) {
          assert d[|d'|] == x;
        }
      }
    }
  }

  /** Kept elements have pairwise distinct keys. */
  lemma {:induction false} DedupOnDistinct<T, K>(s: seq<T>, key: T -> K)
    ensures forall i, j :: 0 <= i < j < |DedupOn(s, key)| ==>
              key(DedupOn(s, key)[i]) != key(DedupOn(s, key)[j])
  {
    if s != [] {
      var s', x := s[..|s| - 1], s[|s| - 1];
      assert s == s' + [x];
      DedupOnDistinct(s', key);
      DedupOnStep(s', x, key);
    }
  }

  /** Appending never changes where a key first occurs. */
  lemma {:induction false} FirstKeyIndexAppend<T, K>(s: seq<T>, x: T, key: T -> K, k: K)
    requires HasKey(s, key, k)
    ensures HasKey(s + [x], key, k)
    ensures FirstKeyIndex(s + [x], key, k) == FirstKeyIndex(s, key, k)
  {
    var i := FirstKeyIndex(s, key, k);
    assert key((s + [x])[i]) == k;
    var i' := FirstKeyIndex(s + [x], key, k);
    assert i' <= i;
    assert (s + [x])[i'] == s[i'];
  }

  /** Each kept element is the FIRST element of `s` carrying its key. */
  lemma {:induction false} DedupOnFirst<T, K>(s: seq<T>, key: T -> K)
    ensures forall y :: y in DedupOn(s, key) ==>
              HasKey(s, key, key(y)) && y == s[FirstKeyIndex(s, key, key(y))]
  {
    if s != [] {
      var s', x := s[..|s| - 1], s[|s| - 1];
      assert s == s' + [x];
      DedupOnFirst(s', key);
      DedupOnStep(s', x, key);
      DedupOnCovers(s', key);
      var d' := DedupOn(s', key);
      forall y | y in DedupOn(s, key)
        ensures HasKey(s, key, key(y)) && y == s[FirstKeyIndex(s, key, key(y))]
      {
        if y in d' {
          FirstKeyIndexAppend(s', x, key, key(y));
        } else {
          assert y == x && !HasKey(d', key, key(x));
          assert key(s[|s| - 1]) == key(x);
        }
      }
    }
  }

  /** Kept elements appear in the order in which their keys first occur in `s`. */
  lemma {:induction false} DedupOnOrder<T, K>(s: seq<T>, key: T -> K)
    ensures forall y :: y in DedupOn(s, key) ==> HasKey(s, key, key(y))
    ensures forall i, j :: 0 <= i < j < |DedupOn(s, key)| ==>
              FirstKeyIndex(s, key, key(DedupOn(s, key)[i])) <
              FirstKeyIndex(s, key, key(DedupOn(s, key)[j]))
  {
    DedupOnFirst(s, key);
    if s != [] {
      var s', x := s[..|s| - 1], s[|s| - 1];
      assert s == s' + [x];
      DedupOnOrder(s', key);
      DedupOnStep(s', x, key);
      DedupOnFirst(s', key);
      DedupOnCovers(s', key);
      var d', d := DedupOn(s', key), DedupOn(s, key);
      forall i, j | 0 <= i < j < |d|
        ensures FirstKeyIndex(s, key, key(d[i])) < FirstKeyIndex(s, key, key(d[j]))
      {
        assert d[i] == d'[i] && d[i] in d';
        FirstKeyIndexAppend(s', x, key, key(d[i]));
        if j < |d'| {
          assert d[j] == d'[j] && d[j] in d';
          FirstKeyIndexAppend(s', x, key, key(d[j]));
        } else {
          // d[j] is the last element x, whose key occurs nowhere in s'
          assert d[j] == x && !HasKey(d', key, key(x));
        }
      }
    }
  }

  /** The plain `Dedup`: no repetitions, and exactly the elements of `s`. */
  lemma DedupSpec<T>(s: seq<T>)
    ensures NoDup(Dedup(s))
    ensures forall x :: x in Dedup(s) <==> x in s
  {
    DedupOnDistinct(s, Id);
    DedupOnCovers(s, Id);
    DedupOnFirst(s, Id);
    forall x | x in s ensures x in Dedup(s) {
      var i :| 0 <= i < |s| && s[i] == x;
      HasKeyId(Dedup(s), x);
    }
    forall x | x in Dedup(s) ensures x in s {
      var i := FirstKeyIndex(s, Id, Id(x));
    }
  }
}
