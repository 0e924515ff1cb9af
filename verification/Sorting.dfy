/** The stable sort that the scripts call through `Array.prototype.sort`. */
module Sorting {

  /** The comparators passed to `sort` are total and transitive; two elements may tie. */
  ghost predicate TotalPreorder<T(!new)>(atMost: (T, T) -> bool) {
    && (forall x, y :: atMost(x, y) || atMost(y, x))
    && (forall x, y, z :: atMost(x, y) && atMost(y, z) ==> atMost(x, z))
  }

  predicate SortedBy<T>(xs: seq<T>, atMost: (T, T) -> bool) {
    forall i, j :: 0 <= i < j < |xs| ==> atMost(xs[i], xs[j])
  }

  /** Put `x` behind every element that may stay before it. */
  function Insert<T>(xs: seq<T>, x: T, atMost: (T, T) -> bool): seq<T> {
    if xs == [] || atMost(xs[|xs| - 1], x) then xs + [x]
    else Insert(xs[..|xs| - 1], x, atMost) + [xs[|xs| - 1]]
  }

  function StableSort<T>(xs: seq<T>, atMost: (T, T) -> bool): seq<T> {
    if xs == [] then []
    else Insert(StableSort(xs[..|xs| - 1], atMost), xs[|xs| - 1], atMost)
  }

  lemma {:induction false} InsertAdds<T>(xs: seq<T>, x: T, atMost: (T, T) -> bool)
    ensures |Insert(xs, x, atMost)| == |xs| + 1
    ensures multiset(Insert(xs, x, atMost)) == multiset(xs) + multiset{x}
  {
    if xs != [] && !atMost(xs[|xs| - 1], x) {
      InsertAdds(xs[..|xs| - 1], x, atMost);
      assert xs == xs[..|xs| - 1] + [xs[|xs| - 1]];
    }
  }

  /** Sorting neither loses, nor repeats, nor invents elements. */
  lemma {:induction false} SortPermutes<T>(xs: seq<T>, atMost: (T, T) -> bool)
    ensures |StableSort(xs, atMost)| == |xs|
    ensures multiset(StableSort(xs, atMost)) == multiset(xs)
  {
    if xs != [] {
      SortPermutes(xs[..|xs| - 1], atMost);
      InsertAdds(StableSort(xs[..|xs| - 1], atMost), xs[|xs| - 1], atMost);
      assert xs == xs[..|xs| - 1] + [xs[|xs| - 1]];
    }
  }

  lemma SortSnoc<T>(xs: seq<T>, x: T, atMost: (T, T) -> bool)
    ensures StableSort(xs + [x], atMost) == Insert(StableSort(xs, atMost), x, atMost)
  {
    assert (xs + [x])[..|xs|] == xs;
  }

  lemma SortedSnoc<T(!new)>(xs: seq<T>, y: T, atMost: (T, T) -> bool)
    requires SortedBy(xs, atMost) && forall x :: x in multiset(xs) ==> atMost(x, y)
    ensures SortedBy(xs + [y], atMost)
  {
    forall i | 0 <= i < |xs| ensures atMost(xs[i], y) {
      assert xs[i] in multiset(xs);
    }
  }

  lemma {:induction false} InsertSorted<T(!new)>(xs: seq<T>, x: T, atMost: (T, T) -> bool)
    requires TotalPreorder(atMost) && SortedBy(xs, atMost)
    ensures SortedBy(Insert(xs, x, atMost), atMost)
  {
    if xs == [] {
    } else if atMost(xs[|xs| - 1], x) {
      forall y | y in multiset(xs) ensures atMost(y, x) {
        assert y in xs;
        assert y == xs[|xs| - 1] || atMost(y, xs[|xs| - 1]);
      }
      SortedSnoc(xs, x, atMost);
    } else {
      var n := |xs| - 1;
      InsertSorted(xs[..n], x, atMost);
      InsertAdds(xs[..n], x, atMost);
      forall y | y in multiset(Insert(xs[..n], x, atMost)) ensures atMost(y, xs[n]) {
        assert y == x || y in xs[..n];
      }
      SortedSnoc(Insert(xs[..n], x, atMost), xs[n], atMost);
    }
  }

  lemma {:induction false} SortSorts<T(!new)>(xs: seq<T>, atMost: (T, T) -> bool)
    requires TotalPreorder(atMost)
    ensures SortedBy(StableSort(xs, atMost), atMost)
  {
    if xs != [] {
      SortSorts(xs[..|xs| - 1], atMost);
      InsertSorted(StableSort(xs[..|xs| - 1], atMost), xs[|xs| - 1], atMost);
    }
  }

  ghost predicate NoTies<T(!new)>(atMost: (T, T) -> bool) {
    forall x, y :: atMost(x, y) && atMost(y, x) ==> x == y
  }

  /** A total preorder in which no two elements tie, such as the default order of strings. */
  ghost predicate TotalOrder<T(!new)>(atMost: (T, T) -> bool) {
    TotalPreorder(atMost) && NoTies(atMost)
  }

  lemma GreatestIsLast<T(!new)>(xs: seq<T>, ys: seq<T>, atMost: (T, T) -> bool)
    requires NoTies(atMost) && SortedBy(xs, atMost) && SortedBy(ys, atMost)
    requires xs != [] && ys != [] && xs[|xs| - 1] in ys && ys[|ys| - 1] in xs
    ensures xs[|xs| - 1] == ys[|ys| - 1]
  {
    var x, y := xs[|xs| - 1], ys[|ys| - 1];
    var i :| 0 <= i < |ys| && ys[i] == x;
    var j :| 0 <= j < |xs| && xs[j] == y;
    assert i == |ys| - 1 || atMost(ys[i], y);
    assert j == |xs| - 1 || atMost(xs[j], x);
  }

  lemma DropSameLast<T(!new)>(xs: seq<T>, ys: seq<T>)
    requires xs != [] && ys != [] && multiset(xs) == multiset(ys) && xs[|xs| - 1] == ys[|ys| - 1]
    ensures multiset(xs[..|xs| - 1]) == multiset(ys[..|ys| - 1])
  {
    var last, frontX, frontY := xs[|xs| - 1], xs[..|xs| - 1], ys[..|ys| - 1];
    assert xs == frontX + [last] && ys == frontY + [last];
    forall x: T ensures multiset(frontX)[x] == multiset(frontY)[x] {
      assert multiset(xs)[x] == multiset(frontX)[x] + multiset{last}[x];
      assert multiset(ys)[x] == multiset(frontY)[x] + multiset{last}[x];
    }
  }

  lemma SortedPrefix<T(!new)>(xs: seq<T>, atMost: (T, T) -> bool)
    requires xs != [] && SortedBy(xs, atMost)
    ensures SortedBy(xs[..|xs| - 1], atMost)
  {
  }

  lemma LastIsShared<T>(xs: seq<T>, ys: seq<T>)
    requires multiset(xs) == multiset(ys) && xs != []
    ensures ys != [] && xs[|xs| - 1] in ys
  {
    assert xs[|xs| - 1] in multiset(xs);
    assert xs[|xs| - 1] in multiset(ys);
  }

  /** A total order sorts a collection in one way only. */
  lemma {:induction false} SortedUnique<T(!new)>(xs: seq<T>, ys: seq<T>, atMost: (T, T) -> bool)
    requires NoTies(atMost) && SortedBy(xs, atMost) && SortedBy(ys, atMost)
    requires multiset(xs) == multiset(ys)
    ensures xs == ys
  {
    if xs == [] {
      if ys != [] {
        LastIsShared(ys, xs);
      }
    } else {
      LastIsShared(xs, ys);
      LastIsShared(ys, xs);
      GreatestIsLast(xs, ys, atMost);
      DropSameLast(xs, ys);
      SortedPrefix(xs, atMost);
      SortedPrefix(ys, atMost);
      SortedUnique(xs[..|xs| - 1], ys[..|ys| - 1], atMost);
      assert xs == xs[..|xs| - 1] + [xs[|xs| - 1]];
      assert ys == ys[..|ys| - 1] + [ys[|ys| - 1]];
    }
  }

  lemma FrontAndLast<T>(xs: seq<T>)
    requires xs != []
    ensures xs == xs[..|xs| - 1] + [xs[|xs| - 1]]
  {
  }

  ghost predicate NoDuplicates<T>(xs: seq<T>) {
    forall i, j :: 0 <= i < j < |xs| ==> xs[i] != xs[j]
  }

  lemma {:induction false} NoDuplicatesMultiplicity<T>(xs: seq<T>, x: T)
    requires NoDuplicates(xs)
    ensures multiset(xs)[x] == if x in xs then 1 else 0
  {
    if xs != [] {
      var n := |xs| - 1;
      NoDuplicatesMultiplicity(xs[..n], x);
      assert xs == xs[..n] + [xs[n]];
    }
  }

  lemma {:induction false} MultiplicityNoDuplicates<T(!new)>(xs: seq<T>)
    requires forall x :: multiset(xs)[x] <= 1
    ensures NoDuplicates(xs)
  {
    if xs != [] {
      var n := |xs| - 1;
      assert xs == xs[..n] + [xs[n]];
      forall x: T ensures multiset(xs[..n])[x] <= 1 {
        assert multiset(xs)[x] <= 1;
      }
      MultiplicityNoDuplicates(xs[..n]);
      assert multiset(xs)[xs[n]] == multiset(xs[..n])[xs[n]] + 1;
      assert xs[n] !in multiset(xs[..n]);
    }
  }

  lemma SameElements<T(!new)>(xs: seq<T>, ys: seq<T>)
    requires NoDuplicates(xs) && NoDuplicates(ys)
    requires forall x :: x in xs <==> x in ys
    ensures multiset(xs) == multiset(ys)
  {
    forall x: T ensures multiset(xs)[x] == multiset(ys)[x] {
      NoDuplicatesMultiplicity(xs, x);
      NoDuplicatesMultiplicity(ys, x);
    }
  }

  function SetOf<T(==)>(xs: seq<T>): set<T> {
    set x | x in xs
  }

  lemma {:induction false} DistinctIffSetSize<T>(xs: seq<T>)
    ensures |SetOf(xs)| <= |xs|
    ensures |SetOf(xs)| == |xs| <==> NoDuplicates(xs)
  {
    if xs == [] {
      assert SetOf(xs) == {};
    } else {
      DistinctIffSetSize(xs[..|xs| - 1]);
      LastInSet(xs);
      LastDistinct(xs);
    }
  }

  lemma LastInSet<T>(xs: seq<T>)
    requires xs != []
    ensures var front, last := xs[..|xs| - 1], xs[|xs| - 1];
            |SetOf(xs)| == |SetOf(front)| + if last in front then 0 else 1
  {
    var front, last := xs[..|xs| - 1], xs[|xs| - 1];
    assert xs == front + [last];
    assert SetOf(xs) == SetOf(front) + {last};
    if last in front {
      assert SetOf(xs) == SetOf(front);
    }
  }

  lemma LastDistinct<T>(xs: seq<T>)
    requires xs != []
    ensures NoDuplicates(xs) <==> NoDuplicates(xs[..|xs| - 1]) && xs[|xs| - 1] !in xs[..|xs| - 1]
  {
    var front, last := xs[..|xs| - 1], xs[|xs| - 1];
    if last in front {
      var i :| 0 <= i < |front| && front[i] == last;
      assert xs[i] == xs[|xs| - 1];
    }
  }

  lemma {:induction false} SubsetSize<T>(xs: set<T>, ys: set<T>)
    requires xs <= ys
    ensures |xs| <= |ys|
  {
    if xs != {} {
      var x :| x in xs;
      SubsetSize(xs - {x}, ys - {x});
    }
  }

  // ---------------------------------------------------------------- the default order of strings

  /** Strings compare by code units, the shorter first when one begins the other. */
  predicate CodeUnitsAtMost(a: string, b: string) {
    a == [] || (b != [] && (a[0] < b[0] || (a[0] == b[0] && CodeUnitsAtMost(a[1..], b[1..]))))
  }

  /** The first strings agree before `k`, and there the first one has the smaller code unit. */
  ghost predicate SmallerAt(a: string, b: string, k: nat) {
    k < |a| && k < |b| && a[..k] == b[..k] && a[k] < b[k]
  }

  /** The order: a string stays before its extensions, and otherwise the first difference decides. */
  lemma {:induction false} CodeUnitsDecide(a: string, b: string)
    ensures CodeUnitsAtMost(a, b) <==> a <= b || exists k :: SmallerAt(a, b, k)
  {
    if a != [] && b != [] {
      if a[0] < b[0] {
        assert SmallerAt(a, b, 0);
      } else if a[0] == b[0] {
        CodeUnitsDecide(a[1..], b[1..]);
        DecideBehind(a, b);
      } else {
        assert forall k :: k > 0 && k < |a| && k < |b| ==> a[..k][0] > b[..k][0];
      }
    }
  }

  lemma DecideBehind(a: string, b: string)
    requires a != [] && b != [] && a[0] == b[0]
    ensures a <= b <==> a[1..] <= b[1..]
    ensures (exists k :: SmallerAt(a, b, k)) <==> (exists k :: SmallerAt(a[1..], b[1..], k))
  {
    assert a == [a[0]] + a[1..] && b == [b[0]] + b[1..];
    forall k: nat | SmallerAt(a[1..], b[1..], k) ensures SmallerAt(a, b, k + 1) {
      assert a[..k + 1] == [a[0]] + a[1..][..k] && b[..k + 1] == [b[0]] + b[1..][..k];
    }
    forall k: nat | SmallerAt(a, b, k) ensures k > 0 && SmallerAt(a[1..], b[1..], k - 1) {
      assert a[1..][..k - 1] == a[..k][1..] && b[1..][..k - 1] == b[..k][1..];
    }
  }

  lemma {:induction false} CodeUnitsTotal(a: string, b: string)
    ensures CodeUnitsAtMost(a, b) || CodeUnitsAtMost(b, a)
    ensures CodeUnitsAtMost(a, b) && CodeUnitsAtMost(b, a) ==> a == b
  {
    if a != [] && b != [] && a[0] == b[0] {
      CodeUnitsTotal(a[1..], b[1..]);
      assert a == [a[0]] + a[1..] && b == [b[0]] + b[1..];
    }
  }

  lemma {:induction false} CodeUnitsTransitive(a: string, b: string, c: string)
    requires CodeUnitsAtMost(a, b) && CodeUnitsAtMost(b, c)
    ensures CodeUnitsAtMost(a, c)
  {
    if a != [] && b != [] && c != [] && a[0] == b[0] == c[0] {
      CodeUnitsTransitive(a[1..], b[1..], c[1..]);
    }
  }
}
