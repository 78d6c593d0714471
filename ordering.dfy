/**
  Python's ordering of `str` values (code point by code point, a proper
  prefix first) and `sorted()` of a set of strings. A sorted listing of a set
  is unique, so the output files do not depend on set iteration order.
*/
module Ordering {
  import opened Text

  /** `a < b` on Python strings. */
  predicate Less(a: Text, b: Text)
    decreases |a|
  {
    if a == [] then b != []
    else if b == [] then false
    else if a[0] != b[0] then a[0] < b[0]
    else Less(a[1..], b[1..])
  }

  lemma {:induction false} LessIrreflexive(a: Text)
    ensures !Less(a, a)
    decreases |a|
  {
    if a != [] {
      LessIrreflexive(a[1..]);
    }
  }

  lemma {:induction false} LessTransitive(a: Text, b: Text, c: Text)
    requires Less(a, b) && Less(b, c)
    ensures Less(a, c)
    decreases |a|
  {
    if a != [] && a[0] == b[0] && b[0] == c[0] {
      LessTransitive(a[1..], b[1..], c[1..]);
    }
  }

  /** Any two different strings are ordered one way or the other. */
  lemma {:induction false} LessTotal(a: Text, b: Text)
    ensures a == b || Less(a, b) || Less(b, a)
    decreases |a|
  {
    if a != [] && b != [] && a[0] == b[0] {
      LessTotal(a[1..], b[1..]);
      if a[1..] == b[1..] {
        assert a == [a[0]] + a[1..] && b == [b[0]] + b[1..];
      }
    }
  }

  lemma LessAsymmetric(a: Text, b: Text)
    requires Less(a, b)
    ensures !Less(b, a)
  {
    if Less(b, a) {
      LessTransitive(a, b, a);
      LessIrreflexive(a);
    }
  }

  /** No element occurs twice. */
  predicate NoDuplicates(s: seq<Text>)
  {
    forall i, j :: 0 <= i < j < |s| ==> s[i] != s[j]
  }

  /** Strictly ascending: sorted and free of duplicates. */
  predicate Sorted(r: seq<Text>)
  {
    forall i, j :: 0 <= i < j < |r| ==> Less(r[i], r[j])
  }

  /** `r` is `sorted(s)` for a set `s`. */
  predicate SortedOf(r: seq<Text>, s: set<Text>)
  {
    Sorted(r) && (forall x :: x in r ==> x in s) && (forall x :: x in s ==> x in r)
  }

  /** A strictly ascending listing is determined by its elements. */
  lemma {:induction false} SortedUnique(r1: seq<Text>, r2: seq<Text>)
    requires Sorted(r1) && Sorted(r2)
    requires forall x :: x in r1 <==> x in r2
    ensures r1 == r2
    decreases |r1|
  {
    assert r1 != [] ==> r1[0] in r2;
    assert r2 != [] ==> r2[0] in r1;
    if r1 != [] && r2 != [] {
      var a, b := r1[0], r2[0];
      if a != b {
        assert a in r2;
        var j :| 0 <= j < |r2| && r2[j] == a;
        assert b in r1;
        var i :| 0 <= i < |r1| && r1[i] == b;
        assert Less(b, a);
        assert Less(a, b);
        LessAsymmetric(a, b);
      }
      forall x ensures x in r1[1..] <==> x in r2[1..] {
        if x in r1[1..] {
          var i :| 1 <= i < |r1| && r1[i] == x;
          assert Less(a, x);
          LessIrreflexive(x);
          assert x in r2;
        }
        if x in r2[1..] {
          var i :| 1 <= i < |r2| && r2[i] == x;
          assert Less(b, x);
          LessIrreflexive(x);
          assert x in r1;
        }
      }
      SortedUnique(r1[1..], r2[1..]);
      assert r1 == [a] + r1[1..] && r2 == [b] + r2[1..];
    }
  }

  /** A sorted listing of a set has one entry per element. */
  lemma {:induction false} SortedOfSize(r: seq<Text>, s: set<Text>)
    requires SortedOf(r, s)
    ensures |r| == |s|
    decreases |r|
  {
    if r != [] {
      var rest := s - {r[0]};
      forall x ensures x in r[1..] <==> x in rest {
        if x in r[1..] {
          var i :| 1 <= i < |r| && r[i] == x;
          assert Less(r[0], x);
          LessIrreflexive(x);
        }
      }
      SortedOfSize(r[1..], rest);
    }
  }

  /** Places `x` into an ascending sequence. */
  function Insert(x: Text, r: seq<Text>): (out: seq<Text>)
    decreases |r|
  {
    if r == [] then [x]
    else if Less(x, r[0]) then [x] + r
    else [r[0]] + Insert(x, r[1..])
  }

  lemma {:induction false} InsertSorted(x: Text, r: seq<Text>)
    requires Sorted(r) && x !in r
    ensures Sorted(Insert(x, r))
    ensures forall y :: y in Insert(x, r) <==> y == x || y in r
    decreases |r|
  {
    if r != [] {
      if Less(x, r[0]) {
        var out := [x] + r;
        forall i, j | 0 <= i < j < |out| ensures Less(out[i], out[j]) {
          if i == 0 && j > 1 {
            LessTransitive(x, r[0], r[j - 1]);
          }
        }
      } else {
        LessTotal(x, r[0]);
        InsertSorted(x, r[1..]);
        var rest := Insert(x, r[1..]);
        var out := [r[0]] + rest;
        forall i, j | 0 <= i < j < |out| ensures Less(out[i], out[j]) {
          if i == 0 {
            assert out[j] in rest;
            if out[j] != x {
              var k :| 1 <= k < |r| && r[k] == out[j];
            }
          }
        }
        forall y ensures y in out <==> y == x || y in r {
          assert r == [r[0]] + r[1..];
        }
      }
    }
  }

  /** `sorted(s)`: takes the elements out of the set one at a time, in
      whatever order, and inserts each into the ascending result. */
  method SortSet(s: set<Text>) returns (r: seq<Text>)
    ensures SortedOf(r, s)
  {
    r := [];
    var rest := s;
    while rest != {}
      invariant rest <= s
      invariant Sorted(r)
      invariant forall x :: x in r <==> x in s && x !in rest
      decreases |rest|
    {
      var x :| x in rest;
      InsertSorted(x, r);
      r := Insert(x, r);
      rest := rest - {x};
    }
  }

  // ----------------------------------------------------- sorted() of a list

  /** `a <= b` on Python strings. */
  predicate LessEq(a: Text, b: Text)
  {
    !Less(b, a)
  }

  /** Ascending, duplicates allowed. */
  predicate Ascending(r: seq<Text>)
  {
    forall i, j :: 0 <= i < j < |r| ==> LessEq(r[i], r[j])
  }

  /** Places `x` into an ascending sequence, before the first element not
      below it. */
  function InsertList(x: Text, r: seq<Text>): (out: seq<Text>)
    decreases |r|
  {
    if r == [] || LessEq(x, r[0]) then [x] + r
    else [r[0]] + InsertList(x, r[1..])
  }

  lemma LessEqTransitive(a: Text, b: Text, c: Text)
    requires LessEq(a, b) && LessEq(b, c)
    ensures LessEq(a, c)
  {
    LessTotal(a, b);
    LessTotal(b, c);
    if Less(c, a) {
      if a == b {
      } else if b == c {
      } else {
        LessTransitive(a, b, c);
        LessAsymmetric(a, c);
      }
    }
  }

  lemma {:induction false} InsertListAscending(x: Text, r: seq<Text>)
    requires Ascending(r)
    ensures Ascending(InsertList(x, r))
    ensures multiset(InsertList(x, r)) == multiset(r) + multiset{x}
    decreases |r|
  {
    if r == [] || LessEq(x, r[0]) {
      var out := [x] + r;
      forall i, j | 0 <= i < j < |out| ensures LessEq(out[i], out[j]) {
        if i == 0 && j > 1 {
          LessEqTransitive(x, r[0], r[j - 1]);
        }
      }
    } else {
      LessTotal(x, r[0]);
      LessAsymmetric(r[0], x);
      InsertListAscending(x, r[1..]);
      var rest := InsertList(x, r[1..]);
      var out := [r[0]] + rest;
      assert r == [r[0]] + r[1..];
      forall i, j | 0 <= i < j < |out| ensures LessEq(out[i], out[j]) {
        if i == 0 {
          assert out[j] in multiset(rest);
          if out[j] != x {
            assert out[j] in multiset(r[1..]);
            var k :| 0 <= k < |r[1..]| && r[1..][k] == out[j];
            assert r[k + 1] == out[j];
          }
        }
      }
    }
  }

  /** `sorted(xs)` for a list: inserts the elements one at a time, in list
      order, into the ascending result. */
  method SortList(xs: seq<Text>) returns (r: seq<Text>)
    ensures Ascending(r)
    ensures multiset(r) == multiset(xs)
  {
    r := [];
    for i := 0 to |xs|
      invariant Ascending(r)
      invariant multiset(r) == multiset(xs[..i])
    {
      InsertListAscending(xs[i], r);
      r := InsertList(xs[i], r);
      assert xs[..i + 1] == xs[..i] + [xs[i]];
    }
    assert xs[..|xs|] == xs;
  }

  /** Sorting a list without duplicates gives the ascending listing of its
      elements, one per entry. */
  lemma AscendingDistinct(xs: seq<Text>, r: seq<Text>)
    requires NoDuplicates(xs)
    requires Ascending(r) && multiset(r) == multiset(xs)
    ensures Sorted(r) && |r| == |xs|
    ensures forall x :: x in r <==> x in xs
  {
    assert |r| == |multiset(r)| == |multiset(xs)| == |xs|;
    forall x ensures x in r <==> x in xs {
      assert x in r <==> x in multiset(r);
      assert x in xs <==> x in multiset(xs);
    }
    forall i, j | 0 <= i < j < |r| ensures Less(r[i], r[j]) {
      DistinctCount(xs, r[i]);
      TwiceCount(r, i, j);
      LessTotal(r[i], r[j]);
    }
  }

  lemma {:induction false} DistinctCount(xs: seq<Text>, x: Text)
    requires NoDuplicates(xs)
    ensures multiset(xs)[x] <= 1
    decreases |xs|
  {
    if xs != [] {
      var n := |xs| - 1;
      DistinctCount(xs[..n], x);
      assert xs == xs[..n] + [xs[n]];
      if xs[n] == x {
        assert x !in xs[..n];
      }
    }
  }

  lemma TwiceCount(r: seq<Text>, i: nat, j: nat)
    requires i < j < |r|
    ensures r[i] == r[j] ==> multiset(r)[r[i]] >= 2
  {
    assert r == r[..i] + [r[i]] + r[i + 1..j] + [r[j]] + r[j + 1..];
  }
}
