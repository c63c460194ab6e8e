/** Rust's `Ord` on `String` (lexicographic by code point, which is the same
    as byte-wise order of the UTF-8 encoding), and the unique ascending
    listing of a finite set of strings: what `sort_by_key` on the keys of a
    map yields, and the order in which a `BTreeMap` iterates. */
module StringOrder {

  predicate Leq(a: string, b: string) {
    |a| == 0 || (|b| > 0 && (a[0] < b[0] || (a[0] == b[0] && Leq(a[1..], b[1..]))))
  }

  predicate Lt(a: string, b: string) {
    Leq(a, b) && a != b
  }

  lemma LeqRefl(a: string)
    ensures Leq(a, a)
  {
  }

  lemma LeqAntisymmetric(a: string, b: string)
    requires Leq(a, b) && Leq(b, a)
    ensures a == b
  {
  }

  lemma LeqTotal(a: string, b: string)
    ensures Leq(a, b) || Leq(b, a)
  {
  }

  lemma LeqTransitive(a: string, b: string, c: string)
    requires Leq(a, b) && Leq(b, c)
    ensures Leq(a, c)
  {
  }

  predicate StrictlySorted(xs: seq<string>) {
    forall i, j :: 0 <= i < j < |xs| ==> Lt(xs[i], xs[j])
  }

  predicate IsLeast(m: string, s: set<string>) {
    m in s && forall y | y in s :: Leq(m, y)
  }

  lemma LeastExists(s: set<string>)
    requires s != {}
    ensures exists m :: IsLeast(m, s)
  {
    var x :| x in s;
    LeqRefl(x);
    if s == {x} {
      assert IsLeast(x, s);
    } else {
      LeastExists(s - {x});
      var m :| IsLeast(m, s - {x});
      LeqTotal(m, x);
      if Leq(m, x) {
        assert IsLeast(m, s);
      } else {
        forall y | y in s ensures Leq(x, y) {
          if y != x { LeqTransitive(x, m, y); }
        }
        assert IsLeast(x, s);
      }
    }
  }

  lemma LeastUnique(s: set<string>)
    ensures forall a, b :: IsLeast(a, s) && IsLeast(b, s) ==> a == b
  {
    forall a, b | IsLeast(a, s) && IsLeast(b, s) ensures a == b {
      LeqAntisymmetric(a, b);
    }
  }

  /** The elements of `s` in ascending order, each once. */
  function SortedOf(s: set<string>): (r: seq<string>)
    ensures |r| == |s|
    ensures forall x :: x in r <==> x in s
    ensures StrictlySorted(r)
    decreases |s|
  {
    if s == {} then []
    else
      LeastExists(s);
      LeastUnique(s);
      var m :| IsLeast(m, s);
      var rest := SortedOf(s - {m});
      forall j | 0 <= j < |rest| ensures Lt(m, rest[j]) {
        assert rest[j] in s - {m};
      }
      [m] + rest
  }

  /** A strictly ascending sequence is determined by its set of elements:
      sorting any enumeration of a set yields the same sequence. */
  lemma {:induction false} SortedUnique(a: seq<string>, b: seq<string>)
    requires StrictlySorted(a) && StrictlySorted(b)
    requires forall x :: x in a <==> x in b
    ensures a == b
    decreases |a| + |b|, if |a| == 0 then 1 else 0
  {
    if |a| == 0 && |b| != 0 {
      SortedUnique(b, a);
    } else if |a| != 0 {
      assert b != [] by { assert a[0] in b; }
      // a[0] and b[0] are each the least element of the common set
      assert Leq(a[0], b[0]) by {
        assert b[0] in a;
        var k :| 0 <= k < |a| && a[k] == b[0];
        if k > 0 { assert Lt(a[0], a[k]); } else { LeqRefl(a[0]); }
      }
      assert Leq(b[0], a[0]) by {
        assert a[0] in b;
        var k :| 0 <= k < |b| && b[k] == a[0];
        if k > 0 { assert Lt(b[0], b[k]); } else { LeqRefl(b[0]); }
      }
      LeqAntisymmetric(a[0], b[0]);
      forall x ensures x in a[1..] <==> x in b[1..] {
        if x in a[1..] {
          var k :| 1 <= k < |a| && a[k] == x;
          assert Lt(a[0], a[k]);
          assert x in b;
        }
        if x in b[1..] {
          var k :| 1 <= k < |b| && b[k] == x;
          assert Lt(b[0], b[k]);
          assert x in a;
        }
      }
      SortedUnique(a[1..], b[1..]);
      assert a == [a[0]] + a[1..] && b == [b[0]] + b[1..];
    }
  }

  /** Whatever order a collection yields its distinct keys in, sorting them
      gives `SortedOf` of the key set. */
  lemma SortedIsSortedOf(xs: seq<string>, s: set<string>)
    requires StrictlySorted(xs)
    requires forall x :: x in xs <==> x in s
    ensures xs == SortedOf(s)
  {
    SortedUnique(xs, SortedOf(s));
  }
}
