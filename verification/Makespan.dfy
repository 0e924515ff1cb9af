/**
 Loads of numbered buckets, and the quality of the longest-processing-time rule.

 An assignment gives the bucket of each file, in the order in which the files are placed.
 The greedy run and the arbitrary competitor it is compared with are both assignments of
 the same weights.
 */
module Makespan {

  type Assignment = seq<nat>

  /** Every file goes to one of the buckets 0..m. */
  ghost predicate Into(a: Assignment, m: nat) {
    forall i :: 0 <= i < |a| ==> a[i] < m
  }

  ghost predicate Descending(ws: seq<real>) {
    forall i, j :: 0 <= i < j < |ws| ==> ws[i] >= ws[j]
  }

  ghost predicate NonNegative(ws: seq<real>) {
    forall i :: 0 <= i < |ws| ==> ws[i] >= 0.0
  }

  /** The weight that assignment `a` puts into bucket `b`. */
  ghost function LoadOf(ws: seq<real>, a: Assignment, b: nat): real
    requires |ws| == |a|
  {
    if ws == [] then 0.0
    else
      var n := |ws| - 1;
      LoadOf(ws[..n], a[..n], b) + (if a[n] == b then ws[n] else 0.0)
  }

  /** The number of files that assignment `a` puts into bucket `b`. */
  ghost function CountOf(a: Assignment, b: nat): nat {
    if a == [] then 0
    else
      var n := |a| - 1;
      CountOf(a[..n], b) + (if a[n] == b then 1 else 0)
  }

  ghost function Total(ws: seq<real>): real {
    if ws == [] then 0.0 else Total(ws[..|ws| - 1]) + ws[|ws| - 1]
  }

  /** The summed load of buckets 0..m. */
  ghost function LoadsUpTo(ws: seq<real>, a: Assignment, m: nat): real
    requires |ws| == |a|
  {
    if m == 0 then 0.0 else LoadsUpTo(ws, a, m - 1) + LoadOf(ws, a, m - 1)
  }

  /** `m` times `t`, unfolded so that the proofs about sums stay linear. */
  ghost function Copies(m: nat, t: real): real {
    if m == 0 then 0.0 else Copies(m - 1, t) + t
  }

  lemma {:induction false} CopiesIsProduct(m: nat, t: real)
    ensures Copies(m, t) == m as real * t
  {
    if m > 0 {
      CopiesIsProduct(m - 1, t);
      assert (m - 1) as real * t + t == m as real * t;
    }
  }

  lemma {:induction false} CopiesAdd(m: nat, x: real, y: real)
    ensures Copies(m, x + y) == Copies(m, x) + Copies(m, y)
  {
    if m > 0 {
      CopiesAdd(m - 1, x, y);
    }
  }

  lemma {:induction false} CopiesThird(m: nat, t: real)
    ensures Copies(m, t) == 3.0 * Copies(m, t / 3.0)
  {
    if m > 0 {
      CopiesThird(m - 1, t);
    }
  }

  lemma FewCopies(x: real)
    ensures Copies(1, x) == x && Copies(2, x) == x + x && Copies(3, x) == x + x + x
  {
    assert Copies(1, x) == Copies(0, x) + x;
    assert Copies(2, x) == Copies(1, x) + x;
  }

  lemma {:induction false} CopiesMonotone(m: nat, x: real, y: real)
    requires x <= y
    ensures Copies(m, x) <= Copies(m, y)
  {
    if m > 0 {
      CopiesMonotone(m - 1, x, y);
    }
  }

  lemma {:induction false} CopiesGrow(m: nat, n: nat, x: real)
    requires m <= n && x >= 0.0
    ensures Copies(m, x) <= Copies(n, x)
  {
    if m < n {
      CopiesGrow(m, n - 1, x);
    }
  }

  /** A bucket's heap key: its weight, then its number of files. */
  datatype Key = Key(sum: real, count: nat)

  predicate KeyLess(left: Key, right: Key) {
    if left.sum != right.sum then left.sum < right.sum else left.count < right.count
  }

  ghost function KeyOf(ws: seq<real>, a: Assignment, b: nat): Key
    requires |ws| == |a|
  {
    Key(LoadOf(ws, a, b), CountOf(a, b))
  }

  /** No bucket is below `b` in (weight, file count) order. */
  ghost predicate Lightest(ws: seq<real>, a: Assignment, m: nat, b: nat)
    requires |ws| == |a|
  {
    b < m && forall c :: 0 <= c < m ==> !KeyLess(KeyOf(ws, a, c), KeyOf(ws, a, b))
  }

  /** Each file went to a lightest bucket of its moment. */
  ghost predicate Greedy(ws: seq<real>, a: Assignment, m: nat) {
    |ws| == |a| &&
    (ws != [] ==>
       var n := |ws| - 1;
       Greedy(ws[..n], a[..n], m) && Lightest(ws[..n], a[..n], m, a[n]))
  }

  lemma {:induction false} GreedyInto(ws: seq<real>, a: Assignment, m: nat)
    requires Greedy(ws, a, m)
    ensures Into(a, m)
  {
    if ws != [] {
      GreedyInto(ws[..|ws| - 1], a[..|ws| - 1], m);
    }
  }

  // ---------------------------------------------------------------- conservation

  lemma {:induction false} LoadsUpToSnoc(ws: seq<real>, a: Assignment, m: nat)
    requires |ws| == |a| > 0
    ensures var n := |ws| - 1;
            LoadsUpTo(ws, a, m) == LoadsUpTo(ws[..n], a[..n], m) + (if a[n] < m then ws[n] else 0.0)
  {
    if m > 0 {
      LoadsUpToSnoc(ws, a, m - 1);
    }
  }

  lemma {:induction false} LoadsUpToEmpty(m: nat)
    ensures LoadsUpTo([], [], m) == 0.0
  {
    if m > 0 {
      LoadsUpToEmpty(m - 1);
    }
  }

  /** Whatever the assignment, the loads add up to the whole weight. */
  lemma {:induction false} LoadsTotal(ws: seq<real>, a: Assignment, m: nat)
    requires |ws| == |a| && Into(a, m)
    ensures LoadsUpTo(ws, a, m) == Total(ws)
  {
    if ws == [] {
      LoadsUpToEmpty(m);
    } else {
      LoadsUpToSnoc(ws, a, m);
      LoadsTotal(ws[..|ws| - 1], a[..|ws| - 1], m);
    }
  }

  lemma {:induction false} LoadsAtMost(ws: seq<real>, a: Assignment, m: nat, t: real)
    requires |ws| == |a|
    requires forall b :: 0 <= b < m ==> LoadOf(ws, a, b) <= t
    ensures LoadsUpTo(ws, a, m) <= Copies(m, t)
  {
    if m > 0 {
      LoadsAtMost(ws, a, m - 1, t);
    }
  }

  lemma {:induction false} LoadsAtLeast(ws: seq<real>, a: Assignment, m: nat, t: real)
    requires |ws| == |a|
    requires forall b :: 0 <= b < m ==> LoadOf(ws, a, b) >= t
    ensures LoadsUpTo(ws, a, m) >= Copies(m, t)
  {
    if m > 0 {
      LoadsAtLeast(ws, a, m - 1, t);
    }
  }

  // ---------------------------------------------------------------- one bucket

  lemma {:induction false} LoadNonNegative(ws: seq<real>, a: Assignment, b: nat)
    requires |ws| == |a| && NonNegative(ws)
    ensures LoadOf(ws, a, b) >= 0.0
  {
    if ws != [] {
      LoadNonNegative(ws[..|ws| - 1], a[..|ws| - 1], b);
    }
  }

  /** An empty bucket weighs nothing. */
  lemma {:induction false} NoFilesNoLoad(ws: seq<real>, a: Assignment, b: nat)
    requires |ws| == |a| && CountOf(a, b) == 0
    ensures LoadOf(ws, a, b) == 0.0
  {
    if ws != [] {
      NoFilesNoLoad(ws[..|ws| - 1], a[..|ws| - 1], b);
    }
  }

  lemma {:induction false} UniformLoad(ws: seq<real>, a: Assignment, b: nat, x: real)
    requires |ws| == |a|
    requires forall i :: 0 <= i < |a| && a[i] == b ==> ws[i] == x
    ensures LoadOf(ws, a, b) == Copies(CountOf(a, b), x)
  {
    if ws != [] {
      var n := |ws| - 1;
      UniformLoad(ws[..n], a[..n], b, x);
    }
  }

  /** Files heavier than `x` each make a bucket heavier than its file count times `x`. */
  lemma {:induction false} HeavyLoad(ws: seq<real>, a: Assignment, b: nat, x: real)
    requires |ws| == |a|
    requires forall i :: 0 <= i < |ws| ==> ws[i] > x
    ensures CountOf(a, b) > 0 ==> LoadOf(ws, a, b) > Copies(CountOf(a, b), x)
  {
    if ws != [] {
      var n := |ws| - 1;
      HeavyLoad(ws[..n], a[..n], b, x);
      if CountOf(a[..n], b) == 0 {
        NoFilesNoLoad(ws[..n], a[..n], b);
      }
    }
  }

  lemma {:induction false} FileWithin(ws: seq<real>, a: Assignment, i: nat)
    requires |ws| == |a| && NonNegative(ws) && i < |a|
    ensures ws[i] <= LoadOf(ws, a, a[i])
  {
    var n := |ws| - 1;
    if i == n {
      LoadNonNegative(ws[..n], a[..n], a[i]);
    } else {
      FileWithin(ws[..n], a[..n], i);
    }
  }

  lemma {:induction false} PairWithin(ws: seq<real>, a: Assignment, i: nat, j: nat)
    requires |ws| == |a| && NonNegative(ws) && i < j < |a| && a[i] == a[j]
    ensures ws[i] + ws[j] <= LoadOf(ws, a, a[i])
  {
    var n := |ws| - 1;
    if j == n {
      FileWithin(ws[..n], a[..n], i);
    } else {
      PairWithin(ws[..n], a[..n], i, j);
    }
  }

  lemma {:induction false} SomeMember(a: Assignment, b: nat) returns (i: nat)
    requires CountOf(a, b) > 0
    ensures i < |a| && a[i] == b
  {
    var n := |a| - 1;
    if a[n] == b {
      i := n;
    } else {
      i := SomeMember(a[..n], b);
    }
  }

  lemma {:induction false} MemberCounts(a: Assignment, i: nat)
    requires i < |a|
    ensures CountOf(a, a[i]) >= 1
  {
    if i < |a| - 1 {
      MemberCounts(a[..|a| - 1], i);
    }
  }

  /** A bucket with two files has one beside any given file. */
  lemma {:induction false} AnotherMember(a: Assignment, i: nat) returns (j: nat)
    requires i < |a| && CountOf(a, a[i]) >= 2
    ensures j < |a| && j != i && a[j] == a[i]
  {
    var n := |a| - 1;
    if i == n {
      j := SomeMember(a[..n], a[i]);
    } else if a[n] == a[i] {
      j := n;
    } else {
      j := AnotherMember(a[..n], i);
    }
  }

  lemma {:induction false} OnlyMember(ws: seq<real>, a: Assignment, i: nat)
    requires |ws| == |a| && i < |a| && CountOf(a, a[i]) == 1
    ensures LoadOf(ws, a, a[i]) == ws[i]
  {
    var n := |ws| - 1;
    if i == n {
      NoFilesNoLoad(ws[..n], a[..n], a[i]);
    } else {
      MemberCounts(a[..n], i);
      OnlyMember(ws[..n], a[..n], i);
    }
  }

  // ---------------------------------------------------------------- files above a third

  /** At most two files heavier than a third of `t` fit within `t`. */
  lemma AtMostTwoBigFiles(ws: seq<real>, a: Assignment, b: nat, t: real)
    requires |ws| == |a| && NonNegative(ws)
    requires forall i :: 0 <= i < |ws| ==> ws[i] > t / 3.0
    requires LoadOf(ws, a, b) <= t
    ensures CountOf(a, b) <= 2
  {
    if CountOf(a, b) >= 3 {
      LoadNonNegative(ws, a, b);
      HeavyLoad(ws, a, b, t / 3.0);
      CopiesGrow(3, CountOf(a, b), t / 3.0);
      FewCopies(t / 3.0);
    }
  }

  /** Charge two for a file alone in its bucket under `a`, and one for any other file. */
  ghost function Charges(a: Assignment): (charges: seq<real>)
    ensures |charges| == |a|
  {
    seq(|a|, i requires 0 <= i < |a| => if CountOf(a, a[i]) == 1 then 2.0 else 1.0)
  }

  /** Under `a` itself, a bucket of one or two files is charged exactly two. */
  lemma ChargesOfOwnBucket(a: Assignment, b: nat)
    requires 1 <= CountOf(a, b) <= 2
    ensures LoadOf(Charges(a), a, b) == 2.0
  {
    var charge := if CountOf(a, b) == 1 then 2.0 else 1.0;
    UniformLoad(Charges(a), a, b, charge);
    FewCopies(charge);
  }

  /**
   When a file would push even the lightest bucket over `t`, a competitor that stays
   within `t` charges at most two to each bucket: a file that is alone under `a` fits
   with no other file.
   */
  lemma ChargesOfCompetitor(ws: seq<real>, a: Assignment, m: nat, o: Assignment, t: real, b: nat)
    requires |ws| == |a| + 1 == |o| && NonNegative(ws)
    requires forall i :: 0 <= i < |a| ==> ws[i] >= ws[|a|]
    requires forall i :: 0 <= i < |ws| ==> ws[i] > t / 3.0
    requires Into(a, m) && forall c :: 0 <= c < m ==> LoadOf(ws[..|a|], a, c) + ws[|a|] > t
    requires LoadOf(ws, o, b) <= t
    ensures LoadOf(Charges(a) + [1.0], o, b) <= 2.0
  {
    var n := |a|;
    var charges := Charges(a) + [1.0];
    AtMostTwoBigFiles(ws, o, b, t);
    if i :| 0 <= i < n && o[i] == b && CountOf(a, a[i]) == 1 {
      OnlyMember(ws[..n], a, i);
      if CountOf(o, b) >= 2 {
        var j := AnotherMember(o, i);
        assert ws[j] >= ws[n];
        PairWithin(ws, o, if i < j then i else j, if i < j then j else i);
      }
      MemberCounts(o, i);
      OnlyMember(charges, o, i);
    } else {
      UniformLoad(charges, o, b, 1.0);
      FewCopies(1.0);
    }
  }

  /** Files heavier than a third of `t`: if some assignment stays within `t`, the greedy step does. */
  lemma BigFilesFit(ws: seq<real>, a: Assignment, m: nat, o: Assignment, t: real)
    requires |ws| == |a| == |o| > 0 && Into(a, m) && Into(o, m) && NonNegative(ws) && Descending(ws)
    requires ws[|ws| - 1] > t / 3.0
    requires var n := |ws| - 1;
             Lightest(ws[..n], a[..n], m, a[n]) &&
             forall b :: 0 <= b < m ==> LoadOf(ws[..n], a[..n], b) <= t
    requires forall b :: 0 <= b < m ==> LoadOf(ws, o, b) <= t
    ensures LoadOf(ws, a, a[|ws| - 1]) <= t
  {
    var n := |ws| - 1;
    var before, placed := ws[..n], a[..n];
    if LoadOf(ws, a, a[n]) > t {
      FileWithin(ws, o, n);
      forall b | 0 <= b < m
        ensures LoadOf(before, placed, b) + ws[n] > t
        ensures LoadOf(Charges(placed), placed, b) == 2.0
      {
        assert !KeyLess(KeyOf(before, placed, b), KeyOf(before, placed, a[n]));
        if CountOf(placed, b) == 0 {
          NoFilesNoLoad(before, placed, b);
        }
        AtMostTwoBigFiles(before, placed, b, t);
        ChargesOfOwnBucket(placed, b);
      }
      LoadsAtLeast(Charges(placed), placed, m, 2.0);
      LoadsTotal(Charges(placed), placed, m);
      var charges := Charges(placed) + [1.0];
      assert charges[..n] == Charges(placed);
      assert Total(charges) == Total(Charges(placed)) + 1.0;
      forall b | 0 <= b < m ensures LoadOf(charges, o, b) <= 2.0 {
        ChargesOfCompetitor(ws, placed, m, o, t, b);
      }
      LoadsAtMost(charges, o, m, 2.0);
      LoadsTotal(charges, o, m);
    }
  }

  // ---------------------------------------------------------------- the bound

  /** `load` is at most 4/3 - 1/(3m) times `t`. */
  ghost predicate WithinBound(m: nat, load: real, t: real) {
    3.0 * Copies(m, load) <= 4.0 * Copies(m, t) - t
  }

  lemma BoundInProducts(m: nat, load: real, t: real)
    ensures WithinBound(m, load, t) <==> 3.0 * m as real * load <= (4.0 * m as real - 1.0) * t
  {
    CopiesIsProduct(m, load);
    CopiesIsProduct(m, t);
  }

  lemma SmallFileElsewhere(m: nat, w: real, t: real)
    requires m >= 1 && w <= t / 3.0
    ensures 3.0 * (Copies(m, w) - w) <= Copies(m, t) - t
  {
    CopiesMonotone(m - 1, w, t / 3.0);
    CopiesThird(m - 1, t);
  }

  lemma AveragingBound(m: nat, low: real, w: real, t: real)
    requires m >= 1 && Copies(m, low) + w <= Copies(m, t) && w <= t / 3.0
    ensures WithinBound(m, low + w, t)
  {
    CopiesAdd(m, low, w);
    SmallFileElsewhere(m, w, t);
  }

  /** The lightest bucket is at most the average of what `o` still has to spread. */
  lemma LowestBelowAverage(ws: seq<real>, a: Assignment, m: nat, o: Assignment, t: real)
    requires |ws| == |a| == |o| > 0 && Into(a, m) && Into(o, m)
    requires var n := |ws| - 1; Lightest(ws[..n], a[..n], m, a[n])
    requires forall b :: 0 <= b < m ==> LoadOf(ws, o, b) <= t
    ensures var n := |ws| - 1; Copies(m, LoadOf(ws[..n], a[..n], a[n])) + ws[n] <= Copies(m, t)
  {
    var n := |ws| - 1;
    var before, placed := ws[..n], a[..n];
    forall b | 0 <= b < m ensures LoadOf(before, placed, b) >= LoadOf(before, placed, a[n]) {
      assert !KeyLess(KeyOf(before, placed, b), KeyOf(before, placed, a[n]));
    }
    LoadsAtLeast(before, placed, m, LoadOf(before, placed, a[n]));
    LoadsTotal(before, placed, m);
    LoadsAtMost(ws, o, m, t);
    LoadsTotal(ws, o, m);
  }

  /** A file no heavier than a third of `t` lands within the averaging bound. */
  lemma SmallFileBound(ws: seq<real>, a: Assignment, m: nat, o: Assignment, t: real)
    requires |ws| == |a| == |o| > 0 && Into(a, m) && Into(o, m)
    requires ws[|ws| - 1] <= t / 3.0
    requires var n := |ws| - 1; Lightest(ws[..n], a[..n], m, a[n])
    requires forall b :: 0 <= b < m ==> LoadOf(ws, o, b) <= t
    ensures WithinBound(m, LoadOf(ws, a, a[|ws| - 1]), t)
  {
    var n := |ws| - 1;
    LowestBelowAverage(ws, a, m, o, t);
    AveragingBound(m, LoadOf(ws[..n], a[..n], a[n]), ws[n], t);
  }

  lemma {:induction false} PrefixLoads(ws: seq<real>, o: Assignment, m: nat, t: real)
    requires |ws| == |o| > 0 && NonNegative(ws)
    requires forall b :: 0 <= b < m ==> LoadOf(ws, o, b) <= t
    ensures var n := |ws| - 1; forall b :: 0 <= b < m ==> LoadOf(ws[..n], o[..n], b) <= t
  {
    var n := |ws| - 1;
    forall b | 0 <= b < m ensures LoadOf(ws[..n], o[..n], b) <= t {
      assert LoadOf(ws, o, b) <= t;
    }
  }

  lemma BelowCompetitor(m: nat, load: real, t: real)
    requires m >= 1 && t >= 0.0 && load <= t
    ensures WithinBound(m, load, t)
  {
    CopiesMonotone(m, load, t);
    CopiesGrow(1, m, t);
    FewCopies(t);
  }

  /**
   The longest-processing-time bound: against every competitor `o` whose buckets all weigh
   at most `t`, each greedy bucket weighs at most 4/3 - 1/(3m) times `t`; and as long as
   every file weighs more than a third of `t`, no greedy bucket exceeds `t` at all.
   */
  lemma {:induction false} LongestFirstBound(ws: seq<real>, a: Assignment, m: nat, o: Assignment, t: real)
    requires m >= 1 && NonNegative(ws) && Descending(ws)
    requires Greedy(ws, a, m)
    requires |o| == |ws| && Into(o, m) && forall b :: 0 <= b < m ==> LoadOf(ws, o, b) <= t
    ensures forall b :: 0 <= b < m ==> WithinBound(m, LoadOf(ws, a, b), t)
    ensures (forall i :: 0 <= i < |ws| ==> ws[i] > t / 3.0) ==> forall b :: 0 <= b < m ==> LoadOf(ws, a, b) <= t
  {
    LoadNonNegative(ws, o, 0);
    assert LoadOf(ws, o, 0) <= t;
    if ws != [] {
      var n := |ws| - 1;
      GreedyInto(ws, a, m);
      PrefixLoads(ws, o, m, t);
      LongestFirstBound(ws[..n], a[..n], m, o[..n], t);
      if ws[n] <= t / 3.0 {
        SmallFileBound(ws, a, m, o, t);
      } else {
        BigFilesFit(ws, a, m, o, t);
        BelowCompetitor(m, LoadOf(ws, a, a[n]), t);
      }
      forall b | 0 <= b < m && b != a[n]
        ensures LoadOf(ws, a, b) == LoadOf(ws[..n], a[..n], b) {
      }
    } else {
      BelowCompetitor(m, 0.0, t);
    }
  }

  /**
   The bound needs weights that are not negative: files of weight 1 and -1 end up in
   different buckets, while together they weigh nothing.
   */
  lemma BoundFailsForNegativeWeights() returns (ws: seq<real>, a: Assignment, o: Assignment)
    ensures Descending(ws) && Greedy(ws, a, 2)
    ensures |o| == |ws| && Into(o, 2) && forall b :: 0 <= b < 2 ==> LoadOf(ws, o, b) <= 0.0
    ensures !WithinBound(2, LoadOf(ws, a, 0), 0.0)
  {
    ws, a, o := [1.0, -1.0], [0, 1], [0, 0];
    assert ws[..1] == [1.0] && a[..1] == [0] && o[..1] == [0];
    assert [1.0][..0] == [] && [0][..0] == [];
    assert Greedy([1.0], [0], 2);
    assert forall b: nat :: LoadOf([1.0], [0], b) == if b == 0 then 1.0 else 0.0;
    assert LoadOf(ws, a, 0) == 1.0;
    FewCopies(1.0);
    FewCopies(0.0);
  }

  /** No greedy placement of weights from `lo` on leaves the bound, for any competitor. */
  ghost predicate BoundHolds(lo: real, m: nat) {
    forall ws, a, o, t, b: nat :: Bounded(lo, m, ws, a, o, t) && b < m ==> WithinBound(m, LoadOf(ws, a, b), t)
  }

  /** A heaviest-first greedy assignment of weights from `lo` on, and a competitor whose buckets weigh at most `t`. */
  ghost predicate Bounded(lo: real, m: nat, ws: seq<real>, a: Assignment, o: Assignment, t: real) {
    && Descending(ws) && Greedy(ws, a, m) && (forall i :: 0 <= i < |ws| ==> ws[i] >= lo)
    && |o| == |ws| && Into(o, m) && forall b :: 0 <= b < m ==> LoadOf(ws, o, b) <= t
  }

  /** Weights `x` and `-x` go to different buckets, while a competitor keeps them together. */
  lemma PairApart(x: real, m: nat)
    requires m >= 2 && x > 0.0
    ensures Bounded(-x, m, [x, -x], [0, 1], [0, 0], 0.0) && LoadOf([x, -x], [0, 1], 0) == x
  {
    assert [x, -x][..1] == [x] && [0, 1][..1] == [0] && [0, 0][..1] == [0];
    assert [x][..0] == [] && [0][..0] == [];
    assert Greedy([x], [0], m);
    forall b: nat ensures LoadOf([x], [0], b) == if b == 0 then x else 0.0 {
    }
    forall b: nat ensures CountOf([0], b) == if b == 0 then 1 else 0 {
    }
    assert Lightest([x], [0], m, 1);
    assert Greedy([x, -x], [0, 1], m);
    var ws: seq<real>, o: Assignment := [x, -x], [0, 0];
    forall b: nat | b < m ensures LoadOf(ws, o, b) <= 0.0 {
      assert LoadOf(ws, o, b) == LoadOf([x], [0], b) + if b == 0 then -x else 0.0;
    }
  }

  /**
   For every number of buckets from two on, the bound holds for all weights from `lo` on if and
   only if `lo` is not negative.
   */
  lemma BoundIffNonNegative(lo: real, m: nat)
    requires m >= 2
    ensures BoundHolds(lo, m) <==> lo >= 0.0
  {
    if lo >= 0.0 {
      forall ws, a, o, t, b: nat | Bounded(lo, m, ws, a, o, t) && b < m
        ensures WithinBound(m, LoadOf(ws, a, b), t)
      {
        LongestFirstBound(ws, a, m, o, t);
      }
    } else {
      PairApart(-lo, m);
      BoundInProducts(m, -lo, 0.0);
      PositiveTimes(m as real, -lo);
      assert Bounded(lo, m, [-lo, lo], [0, 1], [0, 0], 0.0);
      assert !WithinBound(m, LoadOf([-lo, lo], [0, 1], 0), 0.0);
    }
  }

  lemma PositiveTimes(x: real, y: real)
    requires x > 0.0 && y > 0.0
    ensures 3.0 * x * y > 0.0
  {
  }

  /**
   Each file went to the bucket of least weight at its moment, and among equally heavy ones to one
   of fewest files.
   */
  lemma {:induction false} PickIsLightest(ws: seq<real>, a: Assignment, m: nat, k: nat, b: nat)
    requires Greedy(ws, a, m) && k < |a| && b < m
    ensures a[k] < m
    ensures var before, own, other := a[..k], LoadOf(ws[..k], a[..k], a[k]), LoadOf(ws[..k], a[..k], b);
            own < other || (own == other && CountOf(before, a[k]) <= CountOf(before, b))
  {
    var n := |a| - 1;
    if k < n {
      PickIsLightest(ws[..n], a[..n], m, k, b);
      assert ws[..n][..k] == ws[..k] && a[..n][..k] == a[..k];
    } else {
      assert !KeyLess(KeyOf(ws[..n], a[..n], b), KeyOf(ws[..n], a[..n], a[n]));
    }
  }

  lemma {:induction false} MoreCopies(m: nat, n: nat, x: real)
    requires m < n && x > 0.0
    ensures Copies(m, x) < Copies(n, x)
  {
    if m < n - 1 {
      MoreCopies(m, n - 1, x);
    }
  }

  lemma {:induction false} NoCopies(m: nat)
    ensures Copies(m, 0.0) == 0.0
  {
    if m > 0 {
      NoCopies(m - 1);
    }
  }

  /** Equally heavy files are spread evenly, also when they weigh nothing. */
  lemma {:induction false} CountsClose(ws: seq<real>, a: Assignment, m: nat, x: real, b: nat, c: nat)
    requires Greedy(ws, a, m) && b < m && c < m && x >= 0.0 && forall i :: 0 <= i < |ws| ==> ws[i] == x
    ensures CountOf(a, b) <= CountOf(a, c) + 1
  {
    if ws != [] {
      var n := |ws| - 1;
      CountsClose(ws[..n], a[..n], m, x, b, c);
      if a[n] == b {
        PickIsLightest(ws, a, m, n, c);
        UniformLoad(ws[..n], a[..n], b, x);
        UniformLoad(ws[..n], a[..n], c, x);
        if x == 0.0 {
          NoCopies(CountOf(a[..n], b));
          NoCopies(CountOf(a[..n], c));
        } else if CountOf(a[..n], c) < CountOf(a[..n], b) {
          MoreCopies(CountOf(a[..n], c), CountOf(a[..n], b), x);
        }
      }
    }
  }

  /** The loads never drift further apart than one heaviest file. */
  lemma {:induction false} LoadSpread(ws: seq<real>, a: Assignment, m: nat, heaviest: real, b: nat, c: nat)
    requires Greedy(ws, a, m) && b < m && c < m
    requires heaviest >= 0.0 && forall i :: 0 <= i < |ws| ==> 0.0 <= ws[i] <= heaviest
    ensures LoadOf(ws, a, b) - LoadOf(ws, a, c) <= heaviest
  {
    if ws != [] {
      var n := |ws| - 1;
      LoadSpread(ws[..n], a[..n], m, heaviest, b, c);
      assert !KeyLess(KeyOf(ws[..n], a[..n], c), KeyOf(ws[..n], a[..n], a[n]));
    }
  }

  // ---------------------------------------------------------------- which buckets get a file

  /** The number of buckets among 0..m that hold a file. */
  ghost function Occupied(a: Assignment, m: nat): (count: nat)
    ensures count <= m
  {
    if m == 0 then 0 else Occupied(a, m - 1) + (if CountOf(a, m - 1) > 0 then 1 else 0)
  }

  lemma {:induction false} OccupiedSnoc(a: Assignment, m: nat)
    requires |a| > 0
    ensures var n := |a| - 1;
            Occupied(a, m) == Occupied(a[..n], m) + (if a[n] < m && CountOf(a[..n], a[n]) == 0 then 1 else 0)
  {
    if m > 0 {
      OccupiedSnoc(a, m - 1);
    }
  }

  lemma {:induction false} OccupiedEmpty(m: nat)
    ensures Occupied([], m) == 0
  {
    if m > 0 {
      OccupiedEmpty(m - 1);
    }
  }

  /** Every bucket among 0..m holds a file. */
  ghost predicate AllHold(a: Assignment, m: nat) {
    forall b: nat :: b < m ==> CountOf(a, b) > 0
  }

  lemma {:induction false} AllOccupied(a: Assignment, m: nat)
    ensures Occupied(a, m) == m <==> AllHold(a, m)
  {
    if m > 0 {
      AllOccupied(a, m - 1);
      assert AllHold(a, m) <==> AllHold(a, m - 1) && CountOf(a, m - 1) > 0;
    }
  }

  ghost function NonNegatives(ws: seq<real>): (count: nat)
    ensures count <= |ws|
  {
    if ws == [] then 0 else NonNegatives(ws[..|ws| - 1]) + (if ws[|ws| - 1] >= 0.0 then 1 else 0)
  }

  lemma {:induction false} AllNonNegative(ws: seq<real>)
    ensures NonNegatives(ws) == |ws| <==> NonNegative(ws)
  {
    if ws != [] {
      AllNonNegative(ws[..|ws| - 1]);
    }
  }

  /** Beside loads that are not negative, an empty bucket is picked before an occupied one. */
  lemma EmptyBucketFirst(ws: seq<real>, a: Assignment, m: nat, pick: nat)
    requires |ws| == |a| && NonNegative(ws) && Lightest(ws, a, m, pick) && Occupied(a, m) < m
    ensures CountOf(a, pick) == 0 && LoadOf(ws, a, pick) == 0.0
  {
    AllOccupied(a, m);
    var c :| 0 <= c < m && CountOf(a, c) == 0;
    NoFilesNoLoad(ws, a, c);
    LoadNonNegative(ws, a, pick);
    assert !KeyLess(KeyOf(ws, a, c), KeyOf(ws, a, pick));
  }

  /** Once a bucket weighs less than nothing, the next file joins a bucket that does. */
  lemma NegativeBucketFirst(ws: seq<real>, a: Assignment, m: nat, pick: nat, b: nat)
    requires |ws| == |a| && Lightest(ws, a, m, pick) && b < m && LoadOf(ws, a, b) < 0.0
    ensures CountOf(a, pick) > 0 && LoadOf(ws, a, pick) < 0.0
  {
    assert !KeyLess(KeyOf(ws, a, b), KeyOf(ws, a, pick));
    if CountOf(a, pick) == 0 {
      NoFilesNoLoad(ws, a, pick);
    }
  }

  ghost predicate SomeNegativeLoad(ws: seq<real>, a: Assignment, m: nat)
    requires |ws| == |a|
  {
    exists b :: 0 <= b < m && LoadOf(ws, a, b) < 0.0
  }

  /**
   How many buckets a greedy run fills: one for each weight that is not negative, and one
   more for all the negative weights together, as long as there are buckets.
   */
  lemma {:induction false} BucketsFilled(ws: seq<real>, a: Assignment, m: nat)
    requires Greedy(ws, a, m) && Descending(ws)
    ensures NonNegatives(ws) == |ws| ==> Occupied(a, m) == if |ws| < m then |ws| else m
    ensures NonNegatives(ws) < |ws| ==> Occupied(a, m) == if NonNegatives(ws) < m then NonNegatives(ws) + 1 else m
    ensures NonNegatives(ws) < |ws| && NonNegatives(ws) < m ==> SomeNegativeLoad(ws, a, m)
  {
    if ws == [] {
      OccupiedEmpty(m);
    } else {
      var n := |ws| - 1;
      BucketsFilled(ws[..n], a[..n], m);
      OccupiedSnoc(a, m);
      AllNonNegative(ws);
      AllNonNegative(ws[..n]);
      if NonNegative(ws[..n]) {
        if n < m {
          EmptyBucketFirst(ws[..n], a[..n], m, a[n]);
          assert LoadOf(ws, a, a[n]) == ws[n];
        }
      } else {
        assert ws[n] < 0.0;
        if NonNegatives(ws) < m {
          var b :| 0 <= b < m && LoadOf(ws[..n], a[..n], b) < 0.0;
          NegativeBucketFirst(ws[..n], a[..n], m, a[n], b);
          assert LoadOf(ws, a, a[n]) < 0.0;
        }
      }
    }
  }
}
