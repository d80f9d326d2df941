/** QList<QString>::sort: ascending order of QString's operator<, which compares UTF-16
    code units lexicographically (a proper prefix sorts first). */
module Sorting {

  /** QString's operator<. */
  predicate Less(a: string, b: string)
    decreases |a|
  {
    if a == [] then b != []
    else if b == [] then false
    else a[0] < b[0] || (a[0] == b[0] && Less(a[1..], b[1..]))
  }

  predicate LessEq(a: string, b: string)
  {
    a == b || Less(a, b)
  }

  lemma {:induction false} LessIrreflexive(a: string)
    ensures !Less(a, a)
    decreases |a|
  {
    if a != [] {
      LessIrreflexive(a[1..]);
    }
  }

  /** Two different strings are ordered one way. */
  lemma {:induction false} LessTotal(a: string, b: string)
    ensures a == b || Less(a, b) || Less(b, a)
    decreases |a|
  {
    if a != [] && b != [] && a[0] == b[0] {
      LessTotal(a[1..], b[1..]);
      if a[1..] == b[1..] {
        assert a == [a[0]] + a[1..] && b == [b[0]] + b[1..];
      }
    }
  }

  lemma {:induction false} LessAsymmetric(a: string, b: string)
    ensures !(Less(a, b) && Less(b, a))
    decreases |a|
  {
    if a != [] && b != [] && a[0] == b[0] {
      LessAsymmetric(a[1..], b[1..]);
    }
  }

  lemma {:induction false} LessTransitive(a: string, b: string, c: string)
    requires Less(a, b) && Less(b, c)
    ensures Less(a, c)
    decreases |a|
  {
    if a != [] && a[0] == b[0] && b[0] == c[0] {
      LessTransitive(a[1..], b[1..], c[1..]);
    }
  }

  /** Neighbours are in order. */
  predicate Sorted(xs: seq<string>)
  {
    forall i :: 0 <= i < |xs| - 1 ==> LessEq(xs[i], xs[i + 1])
  }

  /** Puts `x` before the first element it does not follow. */
  function Insert(x: string, xs: seq<string>): (r: seq<string>)
    ensures multiset(r) == multiset(xs) + multiset{x}
    ensures |r| == |xs| + 1
    ensures r != [] && (r[0] == x || (xs != [] && r[0] == xs[0]))
  {
    if xs == [] || LessEq(x, xs[0]) then [x] + xs
    else
      assert xs == [xs[0]] + xs[1..];
      [xs[0]] + Insert(x, xs[1..])
  }

  lemma {:induction false} InsertSorted(x: string, xs: seq<string>)
    requires Sorted(xs)
    ensures Sorted(Insert(x, xs))
    decreases |xs|
  {
    if xs != [] && !LessEq(x, xs[0]) {
      LessTotal(x, xs[0]);
      assert Sorted(xs[1..]) by {
        forall i | 0 <= i < |xs[1..]| - 1 ensures LessEq(xs[1..][i], xs[1..][i + 1]) {
          assert xs[1..][i] == xs[i + 1] && xs[1..][i + 1] == xs[i + 2];
        }
      }
      InsertSorted(x, xs[1..]);
      var t := Insert(x, xs[1..]);
      var r := [xs[0]] + t;
      assert r == Insert(x, xs);
      forall i | 0 <= i < |r| - 1 ensures LessEq(r[i], r[i + 1]) {
        if i > 0 {
          assert r[i] == t[i - 1] && r[i + 1] == t[i];
        }
      }
    }
  }

  /** The sorted list. */
  function Sort(xs: seq<string>): (r: seq<string>)
    ensures multiset(r) == multiset(xs) && |r| == |xs|
  {
    if xs == [] then []
    else
      assert xs == [xs[0]] + xs[1..];
      Insert(xs[0], Sort(xs[1..]))
  }

  /** Sort orders the list and only reorders it. */
  lemma {:induction false} SortSpec(xs: seq<string>)
    ensures Sorted(Sort(xs)) && multiset(Sort(xs)) == multiset(xs)
    ensures forall x :: x in Sort(xs) <==> x in xs
    decreases |xs|
  {
    if xs != [] {
      SortSpec(xs[1..]);
      InsertSorted(xs[0], Sort(xs[1..]));
    }
    forall x ensures x in Sort(xs) <==> x in xs {
      assert x in Sort(xs) <==> x in multiset(Sort(xs));
      assert x in xs <==> x in multiset(xs);
    }
  }

  /** In a sorted list every element is at most every later one. */
  lemma {:induction false} SortedPairwise(xs: seq<string>, i: int, j: int)
    requires Sorted(xs) && 0 <= i <= j < |xs|
    ensures LessEq(xs[i], xs[j])
    decreases j - i
  {
    if i < j {
      SortedPairwise(xs, i + 1, j);
      if xs[i] != xs[i + 1] && xs[i + 1] != xs[j] {
        LessTransitive(xs[i], xs[i + 1], xs[j]);
      }
    }
  }

  /** The first sorted element is the least element. */
  lemma SortFirstLeast(xs: seq<string>)
    requires xs != []
    ensures forall x :: x in xs ==> LessEq(Sort(xs)[0], x)
  {
    SortSpec(xs);
    var s := Sort(xs);
    forall x | x in xs ensures LessEq(s[0], x) {
      assert x in s;
      var j :| 0 <= j < |s| && s[j] == x;
      SortedPairwise(s, 0, j);
    }
  }
}
