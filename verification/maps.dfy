/** Folds of insertions into a map, the shape of every
    `for (k, v) in ... { m.insert(k, v) }` loop in the source: a later
    insertion of the same key overwrites an earlier one. */
module Maps {

  /** `order` lists every element of `s` exactly once: one possible
      iteration order of a hash map with key set `s`. */
  ghost predicate Enumerates<T(!new)>(order: seq<T>, s: set<T>) {
    && (forall x :: x in order <==> x in s)
    && Distinct(order)
  }

  /** No element occurs twice. */
  predicate Distinct<T(==)>(xs: seq<T>) {
    forall i, j :: 0 <= i < j < |xs| ==> xs[i] != xs[j]
  }

  /** Dropping the head of a list without repeats leaves one without
      repeats that no longer holds the head. */
  lemma DistinctTail<T>(xs: seq<T>)
    requires |xs| > 0 && Distinct(xs)
    ensures Distinct(xs[1..]) && xs[0] !in xs[1..]
  {
    var rest := xs[1..];
    forall i, j | 0 <= i < j < |rest| ensures rest[i] != rest[j] {
      assert rest[i] == xs[i + 1] && rest[j] == xs[j + 1];
    }
    forall i | 0 <= i < |rest| ensures rest[i] != xs[0] {
      assert rest[i] == xs[i + 1];
    }
  }

  /** Adding a new element in front keeps a list free of repeats. */
  lemma DistinctCons<T>(x: T, xs: seq<T>)
    requires Distinct(xs) && x !in xs
    ensures Distinct([x] + xs)
  {
    var r := [x] + xs;
    forall i, j | 0 <= i < j < |r| ensures r[i] != r[j] {
      if i == 0 {
        assert r[j] == xs[j - 1] && xs[j - 1] in xs;
      } else {
        assert r[i] == xs[i - 1] && r[j] == xs[j - 1];
      }
    }
  }

  /** Index of the last entry whose key is `k`, or -1 if there is none. */
  function LastIndex<K(==), V>(entries: seq<(K, V)>, k: K): (j: int)
    ensures -1 <= j < |entries|
    ensures j >= 0 ==> entries[j].0 == k
    ensures forall i :: j < i < |entries| ==> entries[i].0 != k
  {
    if |entries| == 0 then -1
    else if entries[|entries| - 1].0 == k then |entries| - 1
    else LastIndex(entries[..|entries| - 1], k)
  }

  /** Inserts `entries` into `m` from first to last. */
  function InsertAll<K(==,!new), V>(m: map<K, V>, entries: seq<(K, V)>): (r: map<K, V>)
    ensures forall k :: k in r <==> k in m || LastIndex(entries, k) >= 0
    ensures forall k :: k in r && LastIndex(entries, k) >= 0 ==> r[k] == entries[LastIndex(entries, k)].1
    ensures forall k :: k in r && LastIndex(entries, k) < 0 ==> r[k] == m[k]
  {
    if |entries| == 0 then m
    else
      var last := entries[|entries| - 1];
      InsertAll(m, entries[..|entries| - 1])[last.0 := last.1]
  }

  /** `xs` without the occurrences of `x`, in the same order. */
  function Remove<T(==,!new)>(xs: seq<T>, x: T): (r: seq<T>)
    ensures forall y :: y in r <==> y in xs && y != x
    ensures |r| <= |xs|
  {
    if |xs| == 0 then []
    else if xs[0] == x then Remove(xs[1..], x)
    else [xs[0]] + Remove(xs[1..], x)
  }

  /** Leaving one key out of an iteration order gives an iteration order of
      the map without that key. */
  lemma {:induction false} RemoveEnumerates<T(!new)>(order: seq<T>, s: set<T>, x: T)
    requires Enumerates(order, s)
    ensures Enumerates(Remove(order, x), s - {x})
  {
    RemoveDistinct(order, x);
  }

  lemma {:induction false} RemoveDistinct<T(!new)>(xs: seq<T>, x: T)
    requires Distinct(xs)
    ensures Distinct(Remove(xs, x))
    decreases |xs|
  {
    if |xs| > 0 {
      var tail := xs[1..];
      assert Distinct(tail) by {
        forall i, j | 0 <= i < j < |tail| ensures tail[i] != tail[j] {
          assert tail[i] == xs[i + 1] && tail[j] == xs[j + 1];
        }
      }
      RemoveDistinct(tail, x);
      if xs[0] != x {
        var rest := Remove(tail, x);
        assert xs[0] !in tail by {
          forall k | 0 <= k < |tail| ensures tail[k] != xs[0] { assert tail[k] == xs[k + 1]; }
        }
        assert xs[0] !in rest;
        var r := [xs[0]] + rest;
        assert Remove(xs, x) == r;
        forall i, j | 0 <= i < j < |r| ensures r[i] != r[j] {
          if i == 0 {
            assert r[j] == rest[j - 1] && rest[j - 1] in rest;
          } else {
            assert r[i] == rest[i - 1] && r[j] == rest[j - 1];
            assert rest[i - 1] != rest[j - 1];
          }
        }
      }
    }
  }

  /** Maps with the same keys and the same value at every key are equal. */
  lemma MapExtensional<K, V>(a: map<K, V>, b: map<K, V>)
    requires a.Keys == b.Keys
    requires forall k :: k in a ==> a[k] == b[k]
    ensures a == b
  {
  }

  /** Every inserted key ends up in the map. */
  lemma InsertAllHas<K(!new), V>(entries: seq<(K, V)>, i: nat)
    requires i < |entries|
    ensures entries[i].0 in InsertAll(map[], entries)
  {
    assert LastIndex(entries, entries[i].0) >= i;
  }

  /** Every key of the map comes from an entry, whose value it holds. */
  lemma InsertAllSource<K(!new), V>(entries: seq<(K, V)>, x: K) returns (j: nat)
    requires x in InsertAll(map[], entries)
    ensures j < |entries| && entries[j].0 == x
    ensures InsertAll(map[], entries)[x] == entries[j].1
  {
    j := LastIndex(entries, x);
  }

  /** The last entry under a key is the one the map keeps. */
  lemma InsertAllLast<K(!new), V>(entries: seq<(K, V)>, i: nat)
    requires i < |entries| && LastIndex(entries, entries[i].0) == i
    ensures entries[i].0 in InsertAll(map[], entries)
    ensures InsertAll(map[], entries)[entries[i].0] == entries[i].1
  {
  }
}
