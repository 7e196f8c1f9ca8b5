/** Sorting strings the way `Vec::<String>::sort` orders them, and `dedup`. */
module Sorting {
  predicate AtMost(a: string, b: string) {
    a == "" || (b != "" && (a[0] < b[0] || (a[0] == b[0] && AtMost(a[1..], b[1..]))))
  }

  /** Strings compare by their first difference, a prefix coming first. */
  lemma {:induction false} AtMostIff(a: string, b: string)
    ensures AtMost(a, b) <==> a <= b || exists i :: FirstDifference(a, b, i) && a[i] < b[i]
  {
    if a != "" && b != "" && a[0] == b[0] {
      AtMostIff(a[1..], b[1..]);
      assert a == [a[0]] + a[1..] && b == [b[0]] + b[1..];
      if i :| FirstDifference(a, b, i) && a[i] < b[i] {
        assert FirstDifference(a[1..], b[1..], i - 1);
      }
      if i :| FirstDifference(a[1..], b[1..], i) && a[1..][i] < b[1..][i] {
        assert FirstDifference(a, b, i + 1);
      }
    } else if a != "" && b != "" {
      assert FirstDifference(a, b, 0);
    }
  }

  ghost predicate FirstDifference(a: string, b: string, i: int) {
    0 <= i < |a| && i < |b| && a[i] != b[i] && forall j | 0 <= j < i :: a[j] == b[j]
  }

  lemma {:induction false} AtMostAntisymmetric(a: string, b: string)
    requires AtMost(a, b) && AtMost(b, a)
    ensures a == b
  {
    if a != "" {
      AtMostAntisymmetric(a[1..], b[1..]);
      assert a == [a[0]] + a[1..] && b == [b[0]] + b[1..];
    }
  }

  lemma {:induction false} AtMostTotal(a: string, b: string)
    ensures AtMost(a, b) || AtMost(b, a)
  {
    if a != "" && b != "" {
      AtMostTotal(a[1..], b[1..]);
    }
  }

  lemma {:induction false} AtMostTransitive(a: string, b: string, c: string)
    requires AtMost(a, b) && AtMost(b, c)
    ensures AtMost(a, c)
  {
    if a != "" && a[0] == b[0] == c[0] {
      AtMostTransitive(a[1..], b[1..], c[1..]);
    }
  }

  ghost predicate Sorted(xs: seq<string>) {
    forall i, j | 0 <= i < j < |xs| :: AtMost(xs[i], xs[j])
  }

  ghost predicate Distinct(xs: seq<string>) {
    forall i, j | 0 <= i < j < |xs| :: xs[i] != xs[j]
  }

  function Inserted(x: string, xs: seq<string>): seq<string> {
    if xs == [] || AtMost(x, xs[0]) then [x] + xs else [xs[0]] + Inserted(x, xs[1..])
  }

  function Sort(xs: seq<string>): seq<string> {
    if xs == [] then [] else Inserted(xs[0], Sort(xs[1..]))
  }

  lemma {:induction false} InsertedSorted(x: string, xs: seq<string>)
    requires Sorted(xs)
    ensures Sorted(Inserted(x, xs))
    ensures multiset(Inserted(x, xs)) == multiset{x} + multiset(xs)
  {
    if xs != [] {
      assert xs == [xs[0]] + xs[1..];
      if AtMost(x, xs[0]) {
        forall j | 0 <= j < |xs|
          ensures AtMost(x, xs[j])
        {
          if j > 0 {
            AtMostTransitive(x, xs[0], xs[j]);
          }
        }
      } else {
        AtMostTotal(x, xs[0]);
        InsertedSorted(x, xs[1..]);
        var rest := Inserted(x, xs[1..]);
        forall j | 0 <= j < |rest|
          ensures AtMost(xs[0], rest[j])
        {
          assert rest[j] in multiset(rest);
          assert rest[j] == x || rest[j] in xs[1..];
        }
      }
    }
  }

  lemma {:induction false} SortSorts(xs: seq<string>)
    ensures Sorted(Sort(xs)) && multiset(Sort(xs)) == multiset(xs)
  {
    if xs != [] {
      SortSorts(xs[1..]);
      InsertedSorted(xs[0], Sort(xs[1..]));
      assert xs == [xs[0]] + xs[1..];
    }
  }

  /** `dedup`: drop repeats that stand side by side. */
  function Dedup(xs: seq<string>): seq<string> {
    if |xs| >= 2 && xs[0] == xs[1] then Dedup(xs[1..])
    else if xs == [] then []
    else [xs[0]] + Dedup(xs[1..])
  }

  lemma {:induction false} DedupKeeps(xs: seq<string>)
    requires Sorted(xs)
    ensures Sorted(Dedup(xs)) && Distinct(Dedup(xs))
    ensures forall x :: x in Dedup(xs) <==> x in xs
  {
    if xs != [] {
      DedupKeeps(xs[1..]);
      assert forall x :: x in xs <==> x == xs[0] || x in xs[1..];
      if !(|xs| >= 2 && xs[0] == xs[1]) {
        var rest := Dedup(xs[1..]);
        forall j | 0 <= j < |rest|
          ensures AtMost(xs[0], rest[j]) && rest[j] != xs[0]
        {
          assert rest[j] in xs[1..];
          var k :| 1 <= k < |xs| && xs[k] == rest[j];
          if xs[k] == xs[0] {
            AtMostAntisymmetric(xs[0], xs[1]);
          }
        }
      }
    }
  }

  /** A sorted list without repeats is determined by its members. */
  lemma {:induction false} SortedUnique(xs: seq<string>, ys: seq<string>)
    requires Sorted(xs) && Distinct(xs) && Sorted(ys) && Distinct(ys)
    requires forall x :: x in xs <==> x in ys
    ensures xs == ys
  {
    assert |ys| > 0 ==> ys[0] in ys;
    if xs != [] {
      assert xs[0] in ys && ys != [] && ys[0] in xs;
      var i :| 0 <= i < |ys| && ys[i] == xs[0];
      var j :| 0 <= j < |xs| && xs[j] == ys[0];
      if i > 0 && j > 0 {
        AtMostAntisymmetric(xs[0], ys[0]);
      }
      assert xs[0] == ys[0];
      forall x
        ensures x in xs[1..] <==> x in ys[1..]
      {
        assert x in xs <==> x == xs[0] || x in xs[1..];
        assert x in ys <==> x == ys[0] || x in ys[1..];
      }
      SortedUnique(xs[1..], ys[1..]);
    }
  }
}
