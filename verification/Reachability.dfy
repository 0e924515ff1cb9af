/** What can be reached in a directed graph, cycles included. */
module Reachability {

  /** Each name of the walk is a successor of the one before it. */
  ghost predicate IsWalk<N(!new)>(next: N -> seq<N>, walk: seq<N>) {
    walk != [] && forall i :: 0 < i < |walk| ==> walk[i] in next(walk[i - 1])
  }

  ghost predicate WalkBetween<N(!new)>(next: N -> seq<N>, walk: seq<N>, from: N, to: N) {
    IsWalk(next, walk) && walk[0] == from && walk[|walk| - 1] == to
  }

  ghost predicate Reaches<N(!new)>(next: N -> seq<N>, from: N, to: N) {
    exists walk :: WalkBetween(next, walk, from, to)
  }

  lemma ReachesSelf<N(!new)>(next: N -> seq<N>, a: N)
    ensures Reaches(next, a, a)
  {
    assert WalkBetween(next, [a], a, a);
  }

  lemma ReachesOneMore<N(!new)>(next: N -> seq<N>, a: N, b: N, c: N)
    requires Reaches(next, a, b) && c in next(b)
    ensures Reaches(next, a, c)
  {
    var walk :| WalkBetween(next, walk, a, b);
    assert WalkBetween(next, walk + [c], a, c);
  }

  lemma ReachesThrough<N(!new)>(next: N -> seq<N>, a: N, b: N, c: N)
    requires b in next(a) && Reaches(next, b, c)
    ensures Reaches(next, a, c)
  {
    var walk :| WalkBetween(next, walk, b, c);
    assert WalkBetween(next, [a] + walk, a, c);
  }

  /** The set holds every successor of its members. */
  ghost predicate ClosedUnder<N(!new)>(next: N -> seq<N>, names: set<N>) {
    forall a, b :: a in names && b in next(a) ==> b in names
  }

  /** A closed set is never left. */
  lemma {:induction false} ClosedKeeps<N(!new)>(next: N -> seq<N>, names: set<N>, walk: seq<N>)
    requires ClosedUnder(next, names) && IsWalk(next, walk) && walk[0] in names
    ensures walk[|walk| - 1] in names
  {
    var n := |walk| - 1;
    if n > 0 {
      ClosedKeeps(next, names, walk[..n]);
      assert walk[n] in next(walk[n - 1]);
    }
  }

  lemma ClosedHoldsReached<N(!new)>(next: N -> seq<N>, names: set<N>, from: N, to: N)
    requires ClosedUnder(next, names) && from in names && Reaches(next, from, to)
    ensures to in names
  {
    var walk :| WalkBetween(next, walk, from, to);
    ClosedKeeps(next, names, walk);
  }

  /** Exactly the names reached. */
  ghost predicate ReachedFrom<N(!new)>(next: N -> seq<N>, from: N, names: set<N>) {
    forall n :: n in names <==> Reaches(next, from, n)
  }

  /** The names reached form the least closed set that holds the start. */
  lemma ReachedIsLeastClosed<N(!new)>(next: N -> seq<N>, from: N, names: set<N>)
    requires ReachedFrom(next, from, names)
    ensures from in names && ClosedUnder(next, names)
    ensures forall other :: ClosedUnder(next, other) && from in other ==> names <= other
  {
    ReachesSelf(next, from);
    forall a, b | a in names && b in next(a) ensures b in names {
      ReachesOneMore(next, from, a, b);
    }
    forall other, n | ClosedUnder(next, other) && from in other && n in names ensures n in other {
      ClosedHoldsReached(next, other, from, n);
    }
  }
}
