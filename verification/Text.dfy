/** Splitting text at a separator and joining it again. */
module Text {
  import opened Outcomes

  /** `s.split(c)`: the pieces between the separators; always at least one. */
  function Split(s: string, c: char): (pieces: seq<string>)
    ensures pieces != []
  {
    if s == [] then [[]]
    else
      var rest := Split(s[1..], c);
      if s[0] == c then [[]] + rest else Prepend(s[0], rest)
  }

  /** One more character in front of the first piece. */
  function Prepend(ch: char, pieces: seq<string>): (longer: seq<string>)
    requires pieces != []
    ensures longer != []
  {
    [[ch] + pieces[0]] + pieces[1..]
  }

  /** More text behind the last piece. */
  function ExtendLast(pieces: seq<string>, t: string): seq<string>
    requires pieces != []
  {
    pieces[..|pieces| - 1] + [pieces[|pieces| - 1] + t]
  }

  lemma PrependConcat(ch: char, pieces: seq<string>, more: seq<string>)
    requires pieces != []
    ensures Prepend(ch, pieces + more) == Prepend(ch, pieces) + more
  {
    assert (pieces + more)[1..] == pieces[1..] + more;
  }

  lemma PrependExtended(ch: char, pieces: seq<string>, t: string)
    requires pieces != []
    ensures ExtendLast(Prepend(ch, pieces), t) == Prepend(ch, ExtendLast(pieces, t))
  {
    var n := |pieces| - 1;
    if n == 0 {
      assert [ch] + pieces[0] + t == [ch] + (pieces[0] + t);
      assert pieces[..0] == [] && pieces[1..] == [];
    } else {
      assert ExtendLast(pieces, t)[1..] == pieces[1..n] + [pieces[n] + t];
      assert Prepend(ch, pieces)[..n] == [[ch] + pieces[0]] + pieces[1..n];
    }
  }

  lemma EmptyFirstExtended(pieces: seq<string>, t: string)
    requires pieces != []
    ensures ExtendLast([[]] + pieces, t) == [[]] + ExtendLast(pieces, t)
  {
  }

  /** `pieces.join(c)`. */
  function Join(pieces: seq<string>, c: char): string {
    if pieces == [] then []
    else if |pieces| == 1 then pieces[0]
    else pieces[0] + [c] + Join(pieces[1..], c)
  }

  /** A separator between two texts separates their pieces. */
  lemma {:induction false} SplitAtSeparator(s: string, c: char, t: string)
    ensures Split(s + [c] + t, c) == Split(s, c) + Split(t, c)
  {
    var whole := s + [c] + t;
    if s == [] {
      assert whole == [c] + t && whole[1..] == t;
    } else {
      SplitAtSeparator(s[1..], c, t);
      assert whole[0] == s[0] && whole[1..] == s[1..] + [c] + t;
      var rest := Split(s[1..], c);
      if s[0] == c {
        assert [[]] + (rest + Split(t, c)) == [[]] + rest + Split(t, c);
      } else {
        PrependConcat(s[0], rest, Split(t, c));
      }
    }
  }

  /** Text without a separator belongs to the last piece. */
  lemma {:induction false} SplitExtendsLast(s: string, c: char, t: string)
    requires c !in t
    ensures Split(s + t, c) == ExtendLast(Split(s, c), t)
  {
    if s == [] {
      assert [] + t == t;
      SplitWhole(t, c);
      var one: seq<string> := [[]];
      assert one[..0] == [];
    } else {
      SplitExtendsLast(s[1..], c, t);
      assert (s + t)[0] == s[0] && (s + t)[1..] == s[1..] + t;
      if s[0] == c {
        EmptyFirstExtended(Split(s[1..], c), t);
      } else {
        PrependExtended(s[0], Split(s[1..], c), t);
      }
    }
  }

  /** Text without a separator is one piece. */
  lemma {:induction false} SplitWhole(t: string, c: char)
    requires c !in t
    ensures Split(t, c) == [t]
  {
    if t != [] {
      SplitWhole(t[1..], c);
      assert [t[0]] + t[1..] == t;
    }
  }

  lemma {:induction false} PiecesHaveNoSeparator(s: string, c: char)
    ensures forall i :: 0 <= i < |Split(s, c)| ==> c !in Split(s, c)[i]
  {
    if s != [] {
      PiecesHaveNoSeparator(s[1..], c);
    }
  }

  /** Joining the pieces gives the text back. */
  lemma {:induction false} JoinSplit(s: string, c: char)
    ensures Join(Split(s, c), c) == s
  {
    if s != [] {
      var rest := Split(s[1..], c);
      JoinSplit(s[1..], c);
      if s[0] == c {
        assert ([[]] + rest)[1..] == rest;
        assert [] + [c] + Join(rest, c) == [c] + s[1..];
      } else if |rest| == 1 {
        assert [s[0]] + rest[0] == s;
      } else {
        assert Prepend(s[0], rest)[1..] == rest[1..];
        assert [s[0]] + rest[0] + [c] + Join(rest[1..], c) == [s[0]] + (rest[0] + [c] + Join(rest[1..], c));
      }
      assert s == [s[0]] + s[1..];
    }
  }

  /** Splitting joined pieces gives the pieces back, when none holds the separator. */
  lemma {:induction false} SplitJoin(pieces: seq<string>, c: char)
    requires pieces != [] && forall i :: 0 <= i < |pieces| ==> c !in pieces[i]
    ensures Split(Join(pieces, c), c) == pieces
  {
    if |pieces| == 1 {
      SplitWhole(pieces[0], c);
    } else {
      SplitAtSeparator(pieces[0], c, Join(pieces[1..], c));
      SplitWhole(pieces[0], c);
      SplitJoin(pieces[1..], c);
    }
  }

  // ---------------------------------------------------------------- occurrences

  /** `p` occurs in `s` at `i`. */
  predicate At(s: string, p: string, i: nat) {
    i + |p| <= |s| && s[i..i + |p|] == p
  }

  ghost predicate Occurs(s: string, p: string) {
    exists i: nat :: At(s, p, i)
  }

  function FindFrom(s: string, p: string, from: nat): (r: Option<nat>)
    ensures r.Some? ==> from <= r.value && At(s, p, r.value)
    decreases |s| - from
  {
    if from > |s| then None else if At(s, p, from) then Some(from) else FindFrom(s, p, from + 1)
  }

  /** `s.indexOf(p)`. */
  function Find(s: string, p: string): (r: Option<nat>)
    ensures r.Some? ==> At(s, p, r.value)
  {
    FindFrom(s, p, 0)
  }

  ghost predicate First(s: string, p: string, k: nat) {
    At(s, p, k) && forall j: nat :: j < k ==> !At(s, p, j)
  }

  lemma {:induction false} FindFromMeans(s: string, p: string, from: nat)
    ensures var r := FindFrom(s, p, from);
            && (r.Some? ==>
                  from <= r.value && At(s, p, r.value) && forall j: nat :: from <= j < r.value ==> !At(s, p, j))
            && (r.None? ==> forall j: nat :: from <= j ==> !At(s, p, j))
    decreases |s| - from
  {
    if from <= |s| && !At(s, p, from) {
      FindFromMeans(s, p, from + 1);
    }
  }

  /** The search finds the first occurrence, when there is one. */
  lemma FindMeans(s: string, p: string)
    ensures Find(s, p).Some? <==> Occurs(s, p)
    ensures Find(s, p).Some? ==> First(s, p, Find(s, p).value)
  {
    FindFromMeans(s, p, 0);
  }

  lemma FirstIsFound(s: string, p: string, k: nat)
    requires First(s, p, k)
    ensures Find(s, p) == Some(k)
  {
    FindMeans(s, p);
    assert Occurs(s, p);
  }

  lemma AtPoint(s: string, p: string, i: nat, j: nat)
    requires At(s, p, i) && j < |p|
    ensures s[i + j] == p[j]
  {
    assert s[i..i + |p|][j] == p[j];
  }

  lemma AtInFront(x: string, y: string, p: string, i: nat)
    requires i + |p| <= |x|
    ensures At(x + y, p, i) <==> At(x, p, i)
  {
    assert (x + y)[i..i + |p|] == x[i..i + |p|];
  }

  lemma AtBehind(x: string, y: string, p: string, i: nat)
    ensures At(x + y, p, |x| + i) <==> At(y, p, i)
  {
    if i + |p| <= |y| {
      assert (x + y)[|x| + i..|x| + i + |p|] == y[i..i + |p|];
    }
  }

  lemma NotAcross(x: string, c: char, y: string, p: string, i: nat)
    requires c !in p && i <= |x| < i + |p|
    ensures !At(x + [c] + y, p, i)
  {
    var s := x + [c] + y;
    assert s[|x|] == c;
    if At(s, p, i) {
      AtPoint(s, p, i, |x| - i);
      assert false;
    }
  }

  /** Text without `c` occurs on one side of a `c` or the other. */
  lemma OccursBeside(x: string, c: char, y: string, p: string)
    requires c !in p && p != []
    ensures Occurs(x + [c] + y, p) <==> Occurs(x, p) || Occurs(y, p)
  {
    var s := x + [c] + y;
    assert s == x + ([c] + y);
    if i: nat :| At(s, p, i) {
      if i + |p| <= |x| {
        AtInFront(x, [c] + y, p, i);
      } else if i <= |x| {
        NotAcross(x, c, y, p, i);
      } else {
        AtBehind(x + [c], y, p, i - |x| - 1);
      }
    }
    if i: nat :| At(x, p, i) {
      AtInFront(x, [c] + y, p, i);
    }
    if i: nat :| At(y, p, i) {
      AtBehind(x + [c], y, p, i);
    }
  }
}
