/**
 What the presence check answers about a single name on an interface with heritage, and exactly
 when that is right, read off the declarations: the interface and its ancestors, as often as each
 is inherited.
 */
module TypeHeritage {
  import opened Outcomes
  import opened Sorting
  import opened TypeLookup
  import opened TypeMisreadings

  type Rank = DeclId -> nat

  /** The heritage entry names a declaration within reach. */
  predicate Readable(w: World, file: string, b: Base) {
    b.NamedBase? && Resolve(w, file, b.name).Some?
  }

  /** Every entry within reach names a member of the family, of a rank below the limit. */
  predicate Below(w: World, family: set<DeclId>, rank: Rank, file: string, bases: seq<Base>, limit: nat) {
    forall b :: b in bases && Readable(w, file, b) ==>
      Resolve(w, file, b.name).value in family && rank(Resolve(w, file, b.name).value) < limit
  }

  /** A family of interfaces that inherit from each other without a cycle. */
  predicate Acyclic(w: World, family: set<DeclId>, rank: Rank) {
    forall id :: id in family ==>
      id in w.decls && w.decls[id].Interface? && Below(w, family, rank, id.file, w.decls[id].bases, rank(id))
  }

  /** The interface and its ancestors in the order of the walk, each as often as it is inherited. */
  function Lineage(w: World, family: set<DeclId>, rank: Rank, id: DeclId): (line: seq<DeclId>)
    requires Acyclic(w, family, rank) && id in family
    ensures forall x :: x in line ==> x in family && rank(x) <= rank(id)
    decreases rank(id), 1, 0
  {
    [id] + Ancestors(w, family, rank, id.file, w.decls[id].bases, rank(id))
  }

  function Ancestors(
    w: World, family: set<DeclId>, rank: Rank, file: string, bases: seq<Base>, limit: nat): (line: seq<DeclId>)
    requires Acyclic(w, family, rank) && Below(w, family, rank, file, bases, limit)
    ensures forall x :: x in line ==> x in family && rank(x) < limit
    decreases limit, 0, |bases|
  {
    if bases == [] then []
    else
      var last := bases[|bases| - 1];
      Ancestors(w, family, rank, file, bases[..|bases| - 1], limit) +
      if Readable(w, file, last) then Lineage(w, family, rank, Resolve(w, file, last.name).value) else []
  }

  /** Some interface of the line has a property signature written like the name. */
  predicate Written(w: World, line: seq<DeclId>, name: string) {
    exists x :: x in line && WrittenIn(w, x, name)
  }

  predicate WrittenIn(w: World, x: DeclId, name: string) {
    x in w.decls && w.decls[x].Interface? && FindProperty(w.decls[x].elements, name).Some?
  }

  /** Some interface of the line has a member of this name. */
  ghost predicate Declared(w: World, line: seq<DeclId>, name: string) {
    exists x :: x in line && DeclaredIn(w, x, name)
  }

  ghost predicate DeclaredIn(w: World, x: DeclId, name: string) {
    x in w.decls && w.decls[x].Interface? && Named(w.decls[x].elements, name)
  }

  /** Some interface of the line has an index signature. */
  predicate Indexed(w: World, line: seq<DeclId>) {
    exists x :: x in line && IndexedIn(w, x)
  }

  predicate IndexedIn(w: World, x: DeclId) {
    x in w.decls && w.decls[x].Interface? && exists m :: m in w.decls[x].elements && m.IndexSignature?
  }

  /** Some interface of the line has a heritage entry out of reach. */
  predicate OutOfReach(w: World, line: seq<DeclId>) {
    exists x :: x in line && OutOfReachIn(w, x)
  }

  predicate OutOfReachIn(w: World, x: DeclId) {
    x in w.decls && w.decls[x].Interface? && exists b :: b in w.decls[x].bases && !Readable(w, x.file, b)
  }

  // ---------------------------------------------------------------- what the declarations admit

  /** A single name is certainly there exactly when the interface or an ancestor declares it. */
  lemma {:induction false} MustIffDeclared(w: World, family: set<DeclId>, rank: Rank, id: DeclId, name: string)
    requires Acyclic(w, family, rank) && id in family
    ensures MustDecl(w, id, [Member(name)]) <==> Declared(w, Lineage(w, family, rank, id), name)
    decreases rank(id), 1, 0
  {
    var bases := w.decls[id].bases;
    var line := Ancestors(w, family, rank, id.file, bases, rank(id));
    assert Lineage(w, family, rank, id) == [id] + line;
    if Named(w.decls[id].elements, name) {
      InterfaceHolds(w, id, [Member(name)]);
      assert DeclaredIn(w, id, name);
    } else {
      UnnamedHolds(w, id, [Member(name)]);
      HeritageMustIff(w, family, rank, id.file, bases, rank(id), name);
      assert !DeclaredIn(w, id, name);
    }
  }

  lemma {:induction false} HeritageMustIff(
    w: World, family: set<DeclId>, rank: Rank, file: string, bases: seq<Base>, limit: nat, name: string)
    requires Acyclic(w, family, rank) && Below(w, family, rank, file, bases, limit)
    ensures HeritageMust(w, file, bases, [Member(name)]) <==>
              Declared(w, Ancestors(w, family, rank, file, bases, limit), name)
    decreases limit, 0, |bases|
  {
    if bases != [] {
      var front, last := bases[..|bases| - 1], bases[|bases| - 1];
      assert bases == front + [last];
      HeritageMustIff(w, family, rank, file, front, limit, name);
      if Readable(w, file, last) {
        MustIffDeclared(w, family, rank, Resolve(w, file, last.name).value, name);
      }
    }
  }

  /**
   A single name may be there exactly when it is declared, or an index signature or an entry out
   of reach may hold it.
   */
  lemma {:induction false} MayIffAdmitted(w: World, family: set<DeclId>, rank: Rank, id: DeclId, name: string)
    requires Acyclic(w, family, rank) && id in family
    ensures MayDecl(w, id, [Member(name)]) <==> Admitted(w, Lineage(w, family, rank, id), name)
    decreases rank(id), 1, 0
  {
    var elements, bases := w.decls[id].elements, w.decls[id].bases;
    var line := Ancestors(w, family, rank, id.file, bases, rank(id));
    assert Lineage(w, family, rank, id) == [id] + line;
    if Named(elements, name) {
      InterfaceHolds(w, id, [Member(name)]);
      var m :| m in elements && Declares(m, name);
      assert Admits(elements, m, name);
      assert DeclaredIn(w, id, name);
      AdmittedAdds(w, [id], line, name);
    } else {
      UnnamedHolds(w, id, [Member(name)]);
      UnnamedAdmits(elements, name);
      HeritageMayIff(w, family, rank, id.file, bases, rank(id), name);
      AdmittedAlone(w, id, name);
      AdmittedAdds(w, [id], line, name);
      assert OwnMay(w, id.file, elements, [Member(name)]) <==> IndexedIn(w, id);
    }
  }

  lemma AdmittedAlone(w: World, id: DeclId, name: string)
    ensures Admitted(w, [id], name) <==> DeclaredIn(w, id, name) || IndexedIn(w, id) || OutOfReachIn(w, id)
  {
    assert id in [id];
  }

  lemma AdmittedAdds(w: World, xs: seq<DeclId>, ys: seq<DeclId>, name: string)
    ensures Admitted(w, xs + ys, name) <==> Admitted(w, xs, name) || Admitted(w, ys, name)
  {
    assert forall x :: x in xs + ys <==> x in xs || x in ys;
  }

  ghost predicate Admitted(w: World, line: seq<DeclId>, name: string) {
    Declared(w, line, name) || Indexed(w, line) || OutOfReach(w, line)
  }

  lemma UnnamedAdmits(elements: seq<TypeElement>, name: string)
    requires !Named(elements, name)
    ensures (exists m :: Admits(elements, m, name)) <==> exists m :: m in elements && m.IndexSignature?
  {
    if m :| m in elements && m.IndexSignature? {
      assert Admits(elements, m, name);
    }
  }

  lemma {:induction false} HeritageMayIff(
    w: World, family: set<DeclId>, rank: Rank, file: string, bases: seq<Base>, limit: nat, name: string)
    requires Acyclic(w, family, rank) && Below(w, family, rank, file, bases, limit)
    ensures HeritageMay(w, file, bases, [Member(name)]) <==>
              || (exists b :: b in bases && !Readable(w, file, b))
              || Admitted(w, Ancestors(w, family, rank, file, bases, limit), name)
    decreases limit, 0, |bases|
  {
    if bases != [] {
      var front, last := bases[..|bases| - 1], bases[|bases| - 1];
      assert bases == front + [last];
      HeritageMayIff(w, family, rank, file, front, limit, name);
      assert HeritageMay(w, file, bases, [Member(name)]) <==>
             HeritageMay(w, file, front, [Member(name)]) || HeritageMay(w, file, [last], [Member(name)]);
      if Readable(w, file, last) {
        var to := Resolve(w, file, last.name).value;
        MayIffAdmitted(w, family, rank, to, name);
        AdmittedAdds(w, Ancestors(w, family, rank, file, front, limit), Lineage(w, family, rank, to), name);
      } else {
        assert Ancestors(w, family, rank, file, bases, limit) == Ancestors(w, family, rank, file, front, limit);
      }
    }
  }

  // ---------------------------------------------------------------- what the walk answers

  /** The line of an interface on the line lies on it. */
  lemma {:induction false} LineageWithin(w: World, family: set<DeclId>, rank: Rank, id: DeclId, x: DeclId)
    requires Acyclic(w, family, rank) && id in family && x in Lineage(w, family, rank, id)
    ensures forall y :: y in Lineage(w, family, rank, x) ==> y in Lineage(w, family, rank, id)
    decreases rank(id), 1, 0
  {
    if x != id {
      AncestorWithin(w, family, rank, id.file, w.decls[id].bases, rank(id), x);
    }
  }

  lemma {:induction false} AncestorWithin(
    w: World, family: set<DeclId>, rank: Rank, file: string, bases: seq<Base>, limit: nat, x: DeclId)
    requires Acyclic(w, family, rank) && Below(w, family, rank, file, bases, limit)
    requires x in Ancestors(w, family, rank, file, bases, limit)
    ensures forall y :: y in Lineage(w, family, rank, x) ==> y in Ancestors(w, family, rank, file, bases, limit)
    decreases limit, 0, |bases|
  {
    var front, last := bases[..|bases| - 1], bases[|bases| - 1];
    if x in Ancestors(w, family, rank, file, front, limit) {
      AncestorWithin(w, family, rank, file, front, limit, x);
    } else {
      LineageWithin(w, family, rank, Resolve(w, file, last.name).value, x);
    }
  }

  /** What was entered before, as far as it lies on the line, has no ancestor that writes the name. */
  predicate Unwritten(w: World, family: set<DeclId>, rank: Rank, line: seq<DeclId>, name: string, seen: Seen)
    requires Acyclic(w, family, rank) && forall x :: x in line ==> x in family
  {
    forall x :: x in line && (x, 1) in seen ==> !Written(w, Lineage(w, family, rank, x), name)
  }

  /** Nothing but interfaces of the line was entered. */
  ghost predicate EnteredOn(line: seq<DeclId>, seen: Seen, after: Seen) {
    forall x, l :: (x, l) in after && (x, l) !in seen ==> l == 1 && x in line
  }

  /** With fuel above its rank, the walk of an interface ends. */
  lemma {:induction false} WalkEndsAbove(
    w: World, family: set<DeclId>, rank: Rank, id: DeclId, name: string, seen: Seen, fuel: nat)
    requires Acyclic(w, family, rank) && id in family && fuel > rank(id)
    ensures LookupDecl(w, id, [Member(name)], seen, fuel).Done?
    decreases rank(id), 1, 0
  {
    var entered := seen + {(id, 1)};
    if (id, 1) !in seen {
      BaseWalksEndAbove(w, family, rank, id.file, w.decls[id].bases, rank(id), name, entered, fuel - 1);
    }
  }

  lemma {:induction false} BaseWalksEndAbove(
    w: World, family: set<DeclId>, rank: Rank, file: string, bases: seq<Base>, limit: nat, name: string, seen: Seen,
    fuel: nat)
    requires Acyclic(w, family, rank) && Below(w, family, rank, file, bases, limit) && fuel >= limit
    ensures LookupBases(w, file, bases, [Member(name)], seen, fuel).AllDone?
    decreases limit, 0, |bases|
  {
    if bases != [] {
      var front, last := bases[..|bases| - 1], bases[|bases| - 1];
      BaseWalksEndAbove(w, family, rank, file, front, limit, name, seen, fuel);
      if Readable(w, file, last) {
        WalkEndsAbove(w, family, rank, Resolve(w, file, last.name).value, name,
                      LookupBases(w, file, front, [Member(name)], seen, fuel).seen, fuel);
      }
    }
  }

  /** The walk finds the name exactly when an interface of the line writes it. */
  lemma {:induction false} FoundIffWritten(
    w: World, family: set<DeclId>, rank: Rank, id: DeclId, name: string, seen: Seen, fuel: nat)
    requires Acyclic(w, family, rank) && id in family && fuel > rank(id)
    requires Unwritten(w, family, rank, Lineage(w, family, rank, id), name, seen)
    ensures var walk := LookupDecl(w, id, [Member(name)], seen, fuel);
            && walk.Done? && (walk.result.Found? <==> Written(w, Lineage(w, family, rank, id), name))
            && (walk.result.Found? || EnteredOn(Lineage(w, family, rank, id), seen, walk.seen))
    decreases rank(id), 1, 0
  {
    var line := Ancestors(w, family, rank, id.file, w.decls[id].bases, rank(id));
    assert Lineage(w, family, rank, id) == [id] + line;
    if (id, 1) !in seen {
      if WrittenIn(w, id, name) {
        assert Written(w, [id] + line, name);
      } else {
        BasesFoundIff(w, family, rank, id.file, w.decls[id].bases, rank(id), name, seen + {(id, 1)}, fuel - 1);
      }
    }
  }

  lemma {:induction false} BasesFoundIff(
    w: World, family: set<DeclId>, rank: Rank, file: string, bases: seq<Base>, limit: nat, name: string, seen: Seen,
    fuel: nat)
    requires Acyclic(w, family, rank) && Below(w, family, rank, file, bases, limit) && fuel >= limit
    requires Unwritten(w, family, rank, Ancestors(w, family, rank, file, bases, limit), name, seen)
    ensures var walks := LookupBases(w, file, bases, [Member(name)], seen, fuel);
            var line := Ancestors(w, family, rank, file, bases, limit);
            && walks.AllDone? && (Found in walks.results <==> Written(w, line, name))
            && (Found in walks.results || EnteredOn(line, seen, walks.seen))
    decreases limit, 0, |bases|
  {
    if bases != [] {
      var front, last := bases[..|bases| - 1], bases[|bases| - 1];
      BaseWalksEndAbove(w, family, rank, file, bases, limit, name, seen, fuel);
      BasesFoundIff(w, family, rank, file, front, limit, name, seen, fuel);
      var before := LookupBases(w, file, front, [Member(name)], seen, fuel);
      if Readable(w, file, last) && Found !in before.results {
        var to := Resolve(w, file, last.name).value;
        StaysUnwritten(w, family, rank, Ancestors(w, family, rank, file, front, limit), Lineage(w, family, rank, to),
                       name, seen, before.seen, file, front, limit);
        FoundIffWritten(w, family, rank, to, name, before.seen, fuel);
      }
    }
  }

  lemma StaysUnwritten(w: World, family: set<DeclId>, rank: Rank, front: seq<DeclId>, line: seq<DeclId>, name: string,
                       seen: Seen, before: Seen, file: string, bases: seq<Base>, limit: nat)
    requires Acyclic(w, family, rank) && Below(w, family, rank, file, bases, limit)
    requires front == Ancestors(w, family, rank, file, bases, limit) && !Written(w, front, name)
    requires (forall x :: x in line ==> x in family) && Unwritten(w, family, rank, line, name, seen)
    requires EnteredOn(front, seen, before)
    ensures Unwritten(w, family, rank, line, name, before)
  {
    forall x | x in line && (x, 1) in before ensures !Written(w, Lineage(w, family, rank, x), name) {
      if (x, 1) !in seen {
        AncestorWithin(w, family, rank, file, bases, limit, x);
      }
    }
  }

  /** The walk enters the interfaces of the line one by one, each for the first time. */
  ghost predicate Fresh(line: seq<DeclId>, seen: Seen) {
    NoDuplicates(line) && forall x :: x in line ==> (x, 1) !in seen
  }

  ghost function Entering(line: seq<DeclId>, seen: Seen): Seen {
    seen + (set x | x in line :: (x, 1))
  }

  /** The whole line can be read, and none of it twice. */
  ghost predicate ReadOnce(w: World, line: seq<DeclId>, seen: Seen) {
    Fresh(line, seen) && !OutOfReach(w, line)
  }

  lemma ReadOnceAdds(w: World, xs: seq<DeclId>, ys: seq<DeclId>, seen: Seen)
    ensures ReadOnce(w, xs + ys, seen) <==> ReadOnce(w, xs, seen) && ReadOnce(w, ys, Entering(xs, seen))
    ensures Entering(xs + ys, seen) == Entering(ys, Entering(xs, seen))
  {
    assert forall x :: x in xs + ys <==> x in xs || x in ys;
    FreshAdds(xs, ys, seen);
  }

  lemma FreshAdds(xs: seq<DeclId>, ys: seq<DeclId>, seen: Seen)
    ensures Fresh(xs + ys, seen) <==> Fresh(xs, seen) && Fresh(ys, Entering(xs, seen))
  {
    var all := xs + ys;
    assert forall i :: 0 <= i < |xs| ==> all[i] == xs[i];
    assert forall i :: 0 <= i < |ys| ==> all[|xs| + i] == ys[i];
    if Fresh(all, seen) {
      forall y | y in ys ensures (y, 1) !in Entering(xs, seen) {
        var j :| 0 <= j < |ys| && ys[j] == y;
        assert all[|xs| + j] in all;
      }
      assert forall x :: x in xs ==> x in all;
    }
    if Fresh(xs, seen) && Fresh(ys, Entering(xs, seen)) {
      forall i, j | 0 <= i < j < |all| ensures all[i] != all[j] {
        if i < |xs| <= j {
          assert (xs[i], 1) in Entering(xs, seen) && ys[j - |xs|] in ys;
        }
      }
      assert forall x :: x in all ==> x in xs || x in ys;
    }
  }

  lemma WrittenAdds(w: World, xs: seq<DeclId>, ys: seq<DeclId>, name: string)
    ensures Written(w, xs + ys, name) <==> Written(w, xs, name) || Written(w, ys, name)
  {
    assert forall x :: x in xs + ys <==> x in xs || x in ys;
  }

  /** What no interface writes is missing exactly when the whole line can be read, and none of it twice. */
  lemma {:induction false} MissingIffReadOnce(
    w: World, family: set<DeclId>, rank: Rank, id: DeclId, name: string, seen: Seen, fuel: nat)
    requires Acyclic(w, family, rank) && id in family && fuel > rank(id)
    requires !Written(w, Lineage(w, family, rank, id), name)
    ensures var walk, line := LookupDecl(w, id, [Member(name)], seen, fuel), Lineage(w, family, rank, id);
            && walk.Done? && (walk.result.Missing? <==> ReadOnce(w, line, seen))
            && (walk.result.Missing? ==> walk.seen == Entering(line, seen))
    decreases rank(id), 1, 0
  {
    var bases := w.decls[id].bases;
    var line := Ancestors(w, family, rank, id.file, bases, rank(id));
    assert Lineage(w, family, rank, id) == [id] + line;
    WrittenAdds(w, [id], line, name);
    ReadOnceAdds(w, [id], line, seen);
    OneReadOnce(w, id, seen);
    assert id in [id];
    if (id, 1) !in seen {
      var walks := LookupBases(w, id.file, bases, [Member(name)], seen + {(id, 1)}, fuel - 1);
      BasesMissingIff(w, family, rank, id.file, bases, rank(id), name, seen + {(id, 1)}, fuel - 1);
      AnswersAsBases(w, id, name, seen, fuel);
      CombineMissing(walks.results);
    }
  }

  lemma OneReadOnce(w: World, id: DeclId, seen: Seen)
    requires id in w.decls && w.decls[id].Interface?
    ensures Entering([id], seen) == seen + {(id, 1)}
    ensures ReadOnce(w, [id], seen) <==> (id, 1) !in seen && AllReadable(w, id.file, w.decls[id].bases)
  {
    assert id in [id];
  }

  /** An interface that does not write the name answers as its heritage together. */
  lemma AnswersAsBases(w: World, id: DeclId, name: string, seen: Seen, fuel: nat)
    requires id in w.decls && w.decls[id].Interface? && !WrittenIn(w, id, name) && (id, 1) !in seen && fuel > 0
    requires LookupBases(w, id.file, w.decls[id].bases, [Member(name)], seen + {(id, 1)}, fuel - 1).AllDone?
    ensures var walks := LookupBases(w, id.file, w.decls[id].bases, [Member(name)], seen + {(id, 1)}, fuel - 1);
            LookupDecl(w, id, [Member(name)], seen, fuel) == Done(Combine(walks.results), walks.seen)
  {
  }

  lemma CombineMissing(results: seq<PathLookup>)
    ensures Combine(results).Missing? <==> AllMissing(results)
  {
    if Combine(results).Missing? {
      forall r | r in results ensures r.Missing? {
        assert r != Found && r != Unknown;
      }
    }
  }

  /** No entry is out of reach. */
  predicate AllReadable(w: World, file: string, bases: seq<Base>) {
    forall b :: b in bases ==> Readable(w, file, b)
  }

  predicate AllMissing(results: seq<PathLookup>) {
    forall r :: r in results ==> r.Missing?
  }

  lemma {:induction false} BasesMissingIff(
    w: World, family: set<DeclId>, rank: Rank, file: string, bases: seq<Base>, limit: nat, name: string, seen: Seen,
    fuel: nat)
    requires Acyclic(w, family, rank) && Below(w, family, rank, file, bases, limit) && fuel >= limit
    requires !Written(w, Ancestors(w, family, rank, file, bases, limit), name)
    ensures var walks := LookupBases(w, file, bases, [Member(name)], seen, fuel);
            var line := Ancestors(w, family, rank, file, bases, limit);
            && walks.AllDone?
            && (AllMissing(walks.results) <==> AllReadable(w, file, bases) && ReadOnce(w, line, seen))
            && (AllMissing(walks.results) ==> walks.seen == Entering(line, seen))
    decreases limit, 0, |bases|
  {
    if bases == [] {
      NoneEntered(w, seen);
    } else {
      var front, last := bases[..|bases| - 1], bases[|bases| - 1];
      var line := Ancestors(w, family, rank, file, front, limit);
      BaseWalksEndAbove(w, family, rank, file, bases, limit, name, seen, fuel);
      var before := LookupBases(w, file, front, [Member(name)], seen, fuel);
      var walks := LookupBases(w, file, bases, [Member(name)], seen, fuel);
      assert AllReadable(w, file, bases) <==> AllReadable(w, file, front) && Readable(w, file, last) by {
        assert bases == front + [last];
      }
      if Readable(w, file, last) {
        var to := Resolve(w, file, last.name).value;
        WrittenAdds(w, line, Lineage(w, family, rank, to), name);
        ReadOnceAdds(w, line, Lineage(w, family, rank, to), seen);
        BasesMissingIff(w, family, rank, file, front, limit, name, seen, fuel);
        MissingIffReadOnce(w, family, rank, to, name, before.seen, fuel);
        OneMoreMissing(before.results, LookupDecl(w, to, [Member(name)], before.seen, fuel).result);
      } else {
        OneMoreMissing(before.results, Unknown);
      }
    }
  }

  lemma NoneEntered(w: World, seen: Seen)
    ensures ReadOnce(w, [], seen) && Entering([], seen) == seen
  {
  }

  lemma OneMoreMissing(results: seq<PathLookup>, r: PathLookup)
    ensures AllMissing(results + [r]) <==> AllMissing(results) && r.Missing?
  {
    assert r in results + [r];
    assert forall x :: x in results ==> x in results + [r];
  }

  // ---------------------------------------------------------------- exactly when the answer is right

  /** When the answer about a name is right, for an interface of this line. */
  ghost predicate ReadAsInherited(w: World, line: seq<DeclId>, name: string) {
    if Written(w, line, name) then Declared(w, line, name)
    else (Declared(w, line, name) || Indexed(w, line)) ==> (OutOfReach(w, line) || !NoDuplicates(line))
  }

  lemma NothingEntered(w: World, line: seq<DeclId>)
    ensures ReadOnce(w, line, {}) <==> NoDuplicates(line) && !OutOfReach(w, line)
  {
  }

  /**
   The answer about a single name on an interface with heritage, for interfaces that inherit
   without a cycle, and exactly when it is right. A name that some interface of the line writes is
   found, which is right when one of them declares it. Any other name is reported missing when the
   whole line can be read and no interface is inherited twice, which is right when none declares it
   and none has an index signature.
   */
  lemma HeritageRightIff(w: World, family: set<DeclId>, rank: Rank, id: DeclId, name: string, fuel: nat)
    requires Acyclic(w, family, rank) && id in family && fuel > rank(id)
    ensures var walk, line := LookupDecl(w, id, [Member(name)], {}, fuel), Lineage(w, family, rank, id);
            && walk.Done?
            && (walk.result.Found? <==> Written(w, line, name))
            && (walk.result.Missing? <==> !Written(w, line, name) && NoDuplicates(line) && !OutOfReach(w, line))
            && (SoundForDecl(walk, w, id, [Member(name)]) <==> ReadAsInherited(w, line, name))
  {
    var line := Lineage(w, family, rank, id);
    FoundIffWritten(w, family, rank, id, name, {}, fuel);
    MustIffDeclared(w, family, rank, id, name);
    MayIffAdmitted(w, family, rank, id, name);
    if !Written(w, line, name) {
      MissingIffReadOnce(w, family, rank, id, name, {}, fuel);
      NothingEntered(w, line);
    }
  }

  /** The heritage of the interface can be read, none of it twice, and has plain members only. */
  ghost predicate PlainHeritage(w: World, family: set<DeclId>, rank: Rank, id: DeclId)
    requires Acyclic(w, family, rank) && id in family
  {
    && NoDuplicates(Lineage(w, family, rank, id)) && !OutOfReach(w, Lineage(w, family, rank, id))
    && forall x :: x in Ancestors(w, family, rank, id.file, w.decls[id].bases, rank(id)) ==>
         PlainElements(w.decls[x].elements)
  }

  lemma PlainWritesWhatItDeclares(elements: seq<TypeElement>, name: string)
    requires PlainElements(elements)
    ensures FindProperty(elements, name).Some? <==> Named(elements, name)
  {
    FindPropertyIn(elements, name);
    if FindProperty(elements, name).Some? {
      assert Declares(FindProperty(elements, name).value, name);
    }
  }

  /**
   With plain heritage and no property signature of its own that is written like the name, an
   interface is answered rightly exactly when an ancestor declares the name, or its own members
   neither declare it nor hold an index signature.
   */
  lemma PlainHeritageRightIff(w: World, family: set<DeclId>, rank: Rank, id: DeclId, name: string, fuel: nat)
    requires Acyclic(w, family, rank) && id in family && fuel > rank(id) && PlainHeritage(w, family, rank, id)
    requires FindProperty(w.decls[id].elements, name).None?
    ensures SoundForDecl(LookupDecl(w, id, [Member(name)], {}, fuel), w, id, [Member(name)]) <==>
              || Declared(w, Ancestors(w, family, rank, id.file, w.decls[id].bases, rank(id)), name)
              || ReadAsDeclared(w.decls[id].elements, name)
  {
    var line := Ancestors(w, family, rank, id.file, w.decls[id].bases, rank(id));
    assert Lineage(w, family, rank, id) == [id] + line;
    HeritageRightIff(w, family, rank, id, name, fuel);
    forall x | x in line
      ensures (WrittenIn(w, x, name) <==> DeclaredIn(w, x, name)) && !IndexedIn(w, x)
    {
      PlainWritesWhatItDeclares(w.decls[x].elements, name);
    }
    assert id in [id] + line && !WrittenIn(w, id, name);
    assert forall x :: x in [id] + line <==> x == id || x in line;
  }
}
