/**
 When the type walk ends. Each entered declaration is recorded with the length of the
 remaining path, so the walk ends once those lengths are bounded; indexed access lengthens
 the path, and only a cycle that lengthens it on every round keeps the walk going forever.
 */
module TypeTermination {
  import opened Outcomes
  import Sorting
  import opened TypeLookup

  /** How much longer a path may still grow, for each declaration it can be asked of. */
  type Potential = DeclId -> nat

  /** An enum is never entered; any other declaration needs its potential. */
  predicate CoveredTarget(w: World, phi: Potential, id: DeclId, budget: int)
    requires id in w.decls
  {
    w.decls[id].Enum? || phi(id) <= budget
  }

  /** Every reference in `t` leads to a declaration whose potential `budget` covers. */
  ghost predicate Covered(w: World, phi: Potential, file: string, t: Type, budget: int) {
    match t
    case Literal(elements) =>
      forall m :: m in elements && m.Property? && m.typ.Some? ==> Covered(w, phi, file, m.typ.value, budget + 1)
    case Parenthesized(inner) => Covered(w, phi, file, inner, budget)
    case Intersection(parts) => forall p :: p in parts ==> Covered(w, phi, file, p, budget)
    case Union(branches) => forall b :: b in branches ==> Covered(w, phi, file, b, budget)
    case ArrayOf(element) => Covered(w, phi, file, element, budget + 1)
    case Operator(_, operand) => Covered(w, phi, file, operand, budget)
    case Indexed(target, key) => key.Some? ==> Covered(w, phi, file, target, budget - 1)
    case Reference(head, qualified, arguments) =>
      if Passthrough(head) && arguments != [] then Covered(w, phi, file, arguments[0], budget)
      else if ArrayName(head) && arguments != [] then Covered(w, phi, file, arguments[0], budget + 1)
      else !qualified && Resolve(w, file, head).Some? ==> CoveredTarget(w, phi, Resolve(w, file, head).value, budget)
    case OtherType => true
  }

  ghost predicate CoveredDecl(w: World, phi: Potential, id: DeclId)
    requires id in w.decls
  {
    match w.decls[id]
    case Interface(elements, bases) =>
      && (forall m :: m in elements && m.Property? && m.typ.Some? ==>
           Covered(w, phi, id.file, m.typ.value, phi(id) + 1))
      && (forall b :: b in bases && b.NamedBase? && Resolve(w, id.file, b.name).Some? ==>
            CoveredTarget(w, phi, Resolve(w, id.file, b.name).value, phi(id)))
    case Alias(typ) => Covered(w, phi, id.file, typ, phi(id))
    case Enum => true
  }

  /** Along every cycle of references the path gets no longer. */
  ghost predicate BoundedGrowth(w: World, phi: Potential) {
    forall id :: id in w.decls ==> CoveredDecl(w, phi, id)
  }

  // ---------------------------------------------------------------- fuel does not change answers

  lemma {:induction false} MoreFuelDecl(w: World, id: DeclId, steps: seq<Step>, seen: Seen, fuel: nat, more: nat)
    requires id in w.decls && fuel <= more && LookupDecl(w, id, steps, seen, fuel).Done?
    ensures LookupDecl(w, id, steps, seen, more) == LookupDecl(w, id, steps, seen, fuel)
    decreases fuel, 1, 0
  {
    if steps != [] && !w.decls[id].Enum? && (id, |steps|) !in seen {
      var entered := seen + {(id, |steps|)};
      match w.decls[id]
      case Interface(elements, bases) =>
        if steps[0].Member? {
          var direct := FindProperty(elements, steps[0].name);
          if direct.Some? {
            MoreFuelProperty(w, id.file, direct.value, steps, entered, fuel - 1, more - 1);
          } else if bases != [] {
            MoreFuelBases(w, id.file, bases, steps, entered, fuel - 1, more - 1);
          }
        }
      case Alias(typ) =>
        MoreFuelType(w, id.file, typ, steps, entered, fuel - 1, more - 1);
    }
  }

  lemma {:induction false} MoreFuelProperty(
    w: World, file: string, m: TypeElement, steps: seq<Step>, seen: Seen, fuel: nat, more: nat)
    requires steps != [] && fuel <= more && IntoProperty(w, file, m, steps, seen, fuel).Done?
    ensures IntoProperty(w, file, m, steps, seen, more) == IntoProperty(w, file, m, steps, seen, fuel)
    decreases fuel, 2, 0
  {
    if |steps| > 1 && m.Property? && m.typ.Some? {
      MoreFuelType(w, file, m.typ.value, steps[1..], seen, fuel, more);
    }
  }

  lemma {:induction false} MoreFuelBases(
    w: World, file: string, bases: seq<Base>, steps: seq<Step>, seen: Seen, fuel: nat, more: nat)
    requires fuel <= more && LookupBases(w, file, bases, steps, seen, fuel).AllDone?
    ensures LookupBases(w, file, bases, steps, seen, more) == LookupBases(w, file, bases, steps, seen, fuel)
    decreases fuel, 2, |bases|
  {
    if bases != [] {
      var n := |bases| - 1;
      MoreFuelBases(w, file, bases[..n], steps, seen, fuel, more);
      if bases[n].NamedBase? && Resolve(w, file, bases[n].name).Some? {
        MoreFuelDecl(w, Resolve(w, file, bases[n].name).value, steps,
                     LookupBases(w, file, bases[..n], steps, seen, fuel).seen, fuel, more);
      }
    }
  }

  lemma {:induction false} MoreFuelTypes(
    w: World, file: string, ts: seq<Type>, steps: seq<Step>, seen: Seen, fuel: nat, more: nat)
    requires fuel <= more && LookupTypes(w, file, ts, steps, seen, fuel).AllDone?
    ensures LookupTypes(w, file, ts, steps, seen, more) == LookupTypes(w, file, ts, steps, seen, fuel)
    decreases fuel, 2, |ts|
  {
    if ts != [] {
      var n := |ts| - 1;
      MoreFuelTypes(w, file, ts[..n], steps, seen, fuel, more);
      MoreFuelType(w, file, ts[n], steps, LookupTypes(w, file, ts[..n], steps, seen, fuel).seen, fuel, more);
    }
  }

  /** A walk that ended gives the same answer, and leaves the same record, with any more fuel. */
  lemma {:induction false} MoreFuelType(
    w: World, file: string, t: Type, steps: seq<Step>, seen: Seen, fuel: nat, more: nat)
    requires fuel <= more && LookupType(w, file, t, steps, seen, fuel).Done?
    ensures LookupType(w, file, t, steps, seen, more) == LookupType(w, file, t, steps, seen, fuel)
    decreases fuel, 1, 0
  {
    if steps != [] {
      match t
      case Literal(elements) =>
        if steps[0].Member? && FindProperty(elements, steps[0].name).Some? {
          MoreFuelProperty(w, file, FindProperty(elements, steps[0].name).value, steps, seen, fuel - 1, more - 1);
        }
      case Parenthesized(inner) => MoreFuelType(w, file, inner, steps, seen, fuel - 1, more - 1);
      case Intersection(parts) => MoreFuelTypes(w, file, parts, steps, seen, fuel - 1, more - 1);
      case Union(branches) => MoreFuelTypes(w, file, branches, steps, seen, fuel - 1, more - 1);
      case ArrayOf(element) =>
        if steps[0].Element? {
          MoreFuelType(w, file, element, steps[1..], seen, fuel - 1, more - 1);
        }
      case Operator(_, operand) => MoreFuelType(w, file, operand, steps, seen, fuel - 1, more - 1);
      case Indexed(target, key) =>
        if key.Some? {
          MoreFuelType(w, file, target, [Member(key.value)] + steps, seen, fuel - 1, more - 1);
        }
      case Reference(head, qualified, arguments) =>
        if Passthrough(head) && arguments != [] {
          MoreFuelType(w, file, arguments[0], steps, seen, fuel - 1, more - 1);
        } else if ArrayName(head) && arguments != [] {
          if steps[0].Element? {
            MoreFuelType(w, file, arguments[0], steps[1..], seen, fuel - 1, more - 1);
          }
        } else if !qualified && Resolve(w, file, head).Some? {
          MoreFuelDecl(w, Resolve(w, file, head).value, steps, seen, fuel - 1, more - 1);
        }
      case OtherType =>
    }
  }

  // ---------------------------------------------------------------- the record only grows

  lemma {:induction false} DeclRecordGrows(w: World, id: DeclId, steps: seq<Step>, seen: Seen, fuel: nat)
    requires id in w.decls
    ensures var walk := LookupDecl(w, id, steps, seen, fuel); walk.Done? ==> seen <= walk.seen
    decreases fuel, 1, 0
  {
    if fuel > 0 && steps != [] && !w.decls[id].Enum? && (id, |steps|) !in seen {
      var entered := seen + {(id, |steps|)};
      match w.decls[id]
      case Interface(elements, bases) =>
        if steps[0].Member? {
          var direct := FindProperty(elements, steps[0].name);
          if direct.Some? {
            PropertyRecordGrows(w, id.file, direct.value, steps, entered, fuel - 1);
          } else {
            BasesRecordGrows(w, id.file, bases, steps, entered, fuel - 1);
          }
        }
      case Alias(typ) =>
        TypeRecordGrows(w, id.file, typ, steps, entered, fuel - 1);
    }
  }

  lemma {:induction false} PropertyRecordGrows(
    w: World, file: string, m: TypeElement, steps: seq<Step>, seen: Seen, fuel: nat)
    requires steps != []
    ensures var walk := IntoProperty(w, file, m, steps, seen, fuel); walk.Done? ==> seen <= walk.seen
    decreases fuel, 2, 0
  {
    if |steps| > 1 && m.Property? && m.typ.Some? {
      TypeRecordGrows(w, file, m.typ.value, steps[1..], seen, fuel);
    }
  }

  lemma {:induction false} BasesRecordGrows(
    w: World, file: string, bases: seq<Base>, steps: seq<Step>, seen: Seen, fuel: nat)
    ensures var walks := LookupBases(w, file, bases, steps, seen, fuel); walks.AllDone? ==> seen <= walks.seen
    decreases fuel, 2, |bases|
  {
    if bases != [] {
      var n := |bases| - 1;
      BasesRecordGrows(w, file, bases[..n], steps, seen, fuel);
      var front := LookupBases(w, file, bases[..n], steps, seen, fuel);
      if front.AllDone? && bases[n].NamedBase? && Resolve(w, file, bases[n].name).Some? {
        DeclRecordGrows(w, Resolve(w, file, bases[n].name).value, steps, front.seen, fuel);
      }
    }
  }

  lemma {:induction false} TypesRecordGrows(
    w: World, file: string, ts: seq<Type>, steps: seq<Step>, seen: Seen, fuel: nat)
    ensures var walks := LookupTypes(w, file, ts, steps, seen, fuel); walks.AllDone? ==> seen <= walks.seen
    decreases fuel, 2, |ts|
  {
    if ts != [] {
      var n := |ts| - 1;
      TypesRecordGrows(w, file, ts[..n], steps, seen, fuel);
      var front := LookupTypes(w, file, ts[..n], steps, seen, fuel);
      if front.AllDone? {
        TypeRecordGrows(w, file, ts[n], steps, front.seen, fuel);
      }
    }
  }

  lemma {:induction false} TypeRecordGrows(w: World, file: string, t: Type, steps: seq<Step>, seen: Seen, fuel: nat)
    ensures var walk := LookupType(w, file, t, steps, seen, fuel); walk.Done? ==> seen <= walk.seen
    decreases fuel, 1, 0
  {
    if fuel > 0 && steps != [] {
      match t
      case Literal(elements) =>
        if steps[0].Member? && FindProperty(elements, steps[0].name).Some? {
          PropertyRecordGrows(w, file, FindProperty(elements, steps[0].name).value, steps, seen, fuel - 1);
        }
      case Parenthesized(inner) => TypeRecordGrows(w, file, inner, steps, seen, fuel - 1);
      case Intersection(parts) => TypesRecordGrows(w, file, parts, steps, seen, fuel - 1);
      case Union(branches) => TypesRecordGrows(w, file, branches, steps, seen, fuel - 1);
      case ArrayOf(element) => TypeRecordGrows(w, file, element, steps[1..], seen, fuel - 1);
      case Operator(_, operand) => TypeRecordGrows(w, file, operand, steps, seen, fuel - 1);
      case Indexed(target, key) =>
        if key.Some? {
          TypeRecordGrows(w, file, target, [Member(key.value)] + steps, seen, fuel - 1);
        }
      case Reference(head, qualified, arguments) =>
        if Passthrough(head) && arguments != [] {
          TypeRecordGrows(w, file, arguments[0], steps, seen, fuel - 1);
        } else if ArrayName(head) && arguments != [] {
          TypeRecordGrows(w, file, arguments[0], steps[1..], seen, fuel - 1);
        } else if !qualified && Resolve(w, file, head).Some? {
          DeclRecordGrows(w, Resolve(w, file, head).value, steps, seen, fuel - 1);
        }
      case OtherType =>
    }
  }

  // ---------------------------------------------------------------- termination

  /** All the pairs a walk can record while no path is longer than `longest`. */
  ghost function Entries(w: World, longest: nat): Seen {
    set id, l: nat | id in w.decls && 0 <= l <= longest :: (id, l)
  }

  ghost function Unseen(w: World, longest: nat, seen: Seen): nat {
    |Entries(w, longest) - seen|
  }

  lemma UnseenShrinks(w: World, longest: nat, seen: Seen, after: Seen)
    requires seen <= after
    ensures Unseen(w, longest, after) <= Unseen(w, longest, seen)
  {
    Sorting.SubsetSize(Entries(w, longest) - after, Entries(w, longest) - seen);
  }

  lemma EnteringShrinks(w: World, longest: nat, seen: Seen, id: DeclId, length: nat)
    requires id in w.decls && length <= longest && (id, length) !in seen
    ensures Unseen(w, longest, seen + {(id, length)}) < Unseen(w, longest, seen)
  {
    var left := Entries(w, longest) - seen;
    assert (id, length) in left;
    assert Entries(w, longest) - (seen + {(id, length)}) == left - {(id, length)};
  }

  /** The walk of a declaration ends: each entry uses up one of finitely many pairs. */
  lemma {:induction false} DeclWalkEnds(
    w: World, phi: Potential, longest: nat, id: DeclId, steps: seq<Step>, seen: Seen)
    returns (fuel: nat)
    requires BoundedGrowth(w, phi) && id in w.decls && (w.decls[id].Enum? || |steps| + phi(id) <= longest)
    ensures LookupDecl(w, id, steps, seen, fuel).Done?
    decreases Unseen(w, longest, seen), 0
  {
    fuel := 1;
    if steps != [] && !w.decls[id].Enum? && (id, |steps|) !in seen {
      var entered := seen + {(id, |steps|)};
      EnteringShrinks(w, longest, seen, id, |steps|);
      assert CoveredDecl(w, phi, id);
      match w.decls[id]
      case Interface(elements, bases) =>
        if steps[0].Member? {
          FindPropertyIn(elements, steps[0].name);
          var direct := FindProperty(elements, steps[0].name);
          if direct.Some? {
            fuel := PropertyWalkEnds(w, phi, longest, id.file, direct.value, steps, entered, phi(id));
          } else if bases != [] {
            fuel := BaseWalksEnd(w, phi, longest, id.file, bases, steps, entered, phi(id));
          }
          fuel := fuel + 1;
        }
      case Alias(typ) =>
        fuel := TypeWalkEnds(w, phi, longest, id.file, typ, steps, entered, phi(id));
        fuel := fuel + 1;
    }
  }

  lemma {:induction false} PropertyWalkEnds(w: World, phi: Potential, longest: nat, file: string, m: TypeElement,
                                            steps: seq<Step>, seen: Seen, budget: int)
    returns (fuel: nat)
    requires BoundedGrowth(w, phi) && steps != [] && |steps| + budget <= longest
    requires m.Property? && (m.typ.Some? ==> Covered(w, phi, file, m.typ.value, budget + 1))
    ensures IntoProperty(w, file, m, steps, seen, fuel).Done?
    decreases Unseen(w, longest, seen), 1, m
  {
    fuel := 0;
    if |steps| > 1 && m.typ.Some? {
      fuel := TypeWalkEnds(w, phi, longest, file, m.typ.value, steps[1..], seen, budget + 1);
    }
  }

  lemma {:induction false} BaseWalksEnd(w: World, phi: Potential, longest: nat, file: string, bases: seq<Base>,
                                        steps: seq<Step>, seen: Seen, budget: nat)
    returns (fuel: nat)
    requires BoundedGrowth(w, phi) && |steps| + budget <= longest
    requires forall b :: b in bases && b.NamedBase? && Resolve(w, file, b.name).Some? ==>
               CoveredTarget(w, phi, Resolve(w, file, b.name).value, budget)
    ensures LookupBases(w, file, bases, steps, seen, fuel).AllDone?
    decreases Unseen(w, longest, seen), 1, bases
  {
    fuel := 0;
    if bases != [] {
      var n := |bases| - 1;
      fuel := BaseWalksEnd(w, phi, longest, file, bases[..n], steps, seen, budget);
      if bases[n].NamedBase? && Resolve(w, file, bases[n].name).Some? {
        var front := LookupBases(w, file, bases[..n], steps, seen, fuel);
        BasesRecordGrows(w, file, bases[..n], steps, seen, fuel);
        UnseenShrinks(w, longest, seen, front.seen);
        var id := Resolve(w, file, bases[n].name).value;
        assert bases[n] in bases;
        var last := DeclWalkEnds(w, phi, longest, id, steps, front.seen);
        var both := if last < fuel then fuel else last;
        MoreFuelBases(w, file, bases[..n], steps, seen, fuel, both);
        MoreFuelDecl(w, id, steps, front.seen, last, both);
        fuel := both;
      }
    }
  }

  lemma {:induction false} TypeWalksEnd(w: World, phi: Potential, longest: nat, file: string, ts: seq<Type>,
                                        steps: seq<Step>, seen: Seen, budget: int)
    returns (fuel: nat)
    requires BoundedGrowth(w, phi) && |steps| + budget <= longest
    requires forall t :: t in ts ==> Covered(w, phi, file, t, budget)
    ensures LookupTypes(w, file, ts, steps, seen, fuel).AllDone?
    decreases Unseen(w, longest, seen), 1, ts
  {
    fuel := 0;
    if ts != [] {
      var n := |ts| - 1;
      fuel := TypeWalksEnd(w, phi, longest, file, ts[..n], steps, seen, budget);
      var front := LookupTypes(w, file, ts[..n], steps, seen, fuel);
      TypesRecordGrows(w, file, ts[..n], steps, seen, fuel);
      UnseenShrinks(w, longest, seen, front.seen);
      assert ts[n] in ts;
      var last := TypeWalkEnds(w, phi, longest, file, ts[n], steps, front.seen, budget);
      var both := if last < fuel then fuel else last;
      MoreFuelTypes(w, file, ts[..n], steps, seen, fuel, both);
      MoreFuelType(w, file, ts[n], steps, front.seen, last, both);
      fuel := both;
    }
  }

  lemma {:induction false} TypeWalkEnds(w: World, phi: Potential, longest: nat, file: string, t: Type,
                                        steps: seq<Step>, seen: Seen, budget: int)
    returns (fuel: nat)
    requires BoundedGrowth(w, phi) && |steps| + budget <= longest && Covered(w, phi, file, t, budget)
    ensures LookupType(w, file, t, steps, seen, fuel).Done?
    decreases Unseen(w, longest, seen), 1, t
  {
    fuel := 0;
    if steps != [] {
      match t
      case Literal(elements) =>
        if steps[0].Member? {
          FindPropertyIn(elements, steps[0].name);
          var direct := FindProperty(elements, steps[0].name);
          if direct.Some? {
            fuel := PropertyWalkEnds(w, phi, longest, file, direct.value, steps, seen, budget);
          }
        }
      case Parenthesized(inner) =>
        fuel := TypeWalkEnds(w, phi, longest, file, inner, steps, seen, budget);
      case Intersection(parts) =>
        fuel := TypeWalksEnd(w, phi, longest, file, parts, steps, seen, budget);
      case Union(branches) =>
        fuel := TypeWalksEnd(w, phi, longest, file, branches, steps, seen, budget);
      case ArrayOf(element) =>
        if steps[0].Element? {
          fuel := TypeWalkEnds(w, phi, longest, file, element, steps[1..], seen, budget + 1);
        }
      case Operator(_, operand) =>
        fuel := TypeWalkEnds(w, phi, longest, file, operand, steps, seen, budget);
      case Indexed(target, key) =>
        if key.Some? {
          fuel := TypeWalkEnds(w, phi, longest, file, target, [Member(key.value)] + steps, seen, budget - 1);
        }
      case Reference(head, qualified, arguments) =>
        if Passthrough(head) && arguments != [] {
          fuel := TypeWalkEnds(w, phi, longest, file, arguments[0], steps, seen, budget);
        } else if ArrayName(head) && arguments != [] {
          if steps[0].Element? {
            fuel := TypeWalkEnds(w, phi, longest, file, arguments[0], steps[1..], seen, budget + 1);
          }
        } else if !qualified && Resolve(w, file, head).Some? {
          fuel := DeclWalkEnds(w, phi, longest, Resolve(w, file, head).value, steps, seen);
        }
      case OtherType =>
    }
    fuel := fuel + 1;
  }

  /**
   Where no reference cycle lengthens the path, every walk ends, on recursive declarations
   too and whatever was entered before; its one answer is sound.
   */
  lemma WalkEndsSoundly(w: World, phi: Potential, id: DeclId, steps: seq<Step>, seen: Seen)
    returns (fuel: nat, answer: Walk)
    requires BoundedGrowth(w, phi) && id in w.decls
    ensures answer.Done? && forall more: nat :: more >= fuel ==> LookupDecl(w, id, steps, seen, more) == answer
    ensures PlainWorld(w) ==> SoundForDecl(answer, w, id, steps)
  {
    fuel := DeclWalkEnds(w, phi, |steps| + phi(id), id, steps, seen);
    answer := LookupDecl(w, id, steps, seen, fuel);
    forall more: nat | more >= fuel ensures LookupDecl(w, id, steps, seen, more) == answer {
      MoreFuelDecl(w, id, steps, seen, fuel, more);
    }
    if PlainWorld(w) {
      DeclLookupSound(w, id, steps, seen, fuel);
    }
  }

  // ---------------------------------------------------------------- worlds without indexed access

  predicate NoIndexedAccess(t: Type) {
    match t
    case Literal(elements) => forall m :: m in elements && m.Property? && m.typ.Some? ==> NoIndexedAccess(m.typ.value)
    case Parenthesized(inner) => NoIndexedAccess(inner)
    case Intersection(parts) => forall p :: p in parts ==> NoIndexedAccess(p)
    case Union(branches) => forall b :: b in branches ==> NoIndexedAccess(b)
    case ArrayOf(element) => NoIndexedAccess(element)
    case Operator(_, operand) => NoIndexedAccess(operand)
    case Indexed(_, key) => key.None?
    case Reference(_, _, arguments) => forall a :: a in arguments ==> NoIndexedAccess(a)
    case OtherType => true
  }

  ghost predicate NoIndexedAccessIn(w: World) {
    forall id :: id in w.decls ==>
      match w.decls[id]
      case Interface(elements, _) => forall m :: m in elements && m.Property? && m.typ.Some? ==>
          NoIndexedAccess(m.typ.value)
      case Alias(typ) => NoIndexedAccess(typ)
      case Enum => true
  }

  lemma {:induction false} CoveredWithoutIndexedAccess(w: World, file: string, t: Type, budget: nat)
    requires NoIndexedAccess(t)
    ensures Covered(w, _ => 0, file, t, budget)
    decreases t
  {
    match t
    case Literal(elements) =>
      forall m | m in elements && m.Property? && m.typ.Some? ensures Covered(w, _ => 0, file, m.typ.value, budget + 1) {
        CoveredWithoutIndexedAccess(w, file, m.typ.value, budget + 1);
      }
    case Parenthesized(inner) => CoveredWithoutIndexedAccess(w, file, inner, budget);
    case Intersection(parts) =>
      forall p | p in parts ensures Covered(w, _ => 0, file, p, budget) {
        CoveredWithoutIndexedAccess(w, file, p, budget);
      }
    case Union(branches) =>
      forall b | b in branches ensures Covered(w, _ => 0, file, b, budget) {
        CoveredWithoutIndexedAccess(w, file, b, budget);
      }
    case ArrayOf(element) => CoveredWithoutIndexedAccess(w, file, element, budget + 1);
    case Operator(_, operand) => CoveredWithoutIndexedAccess(w, file, operand, budget);
    case Indexed(_, _) =>
    case Reference(head, _, arguments) =>
      if (Passthrough(head) || ArrayName(head)) && arguments != [] {
        assert arguments[0] in arguments;
        CoveredWithoutIndexedAccess(w, file, arguments[0], budget);
        CoveredWithoutIndexedAccess(w, file, arguments[0], budget + 1);
      }
    case OtherType =>
  }

  /** Without indexed access every walk ends. */
  lemma NoIndexedAccessEnds(w: World, id: DeclId, steps: seq<Step>, seen: Seen) returns (fuel: nat, answer: Walk)
    requires NoIndexedAccessIn(w) && id in w.decls
    ensures answer.Done? && forall more: nat :: more >= fuel ==> LookupDecl(w, id, steps, seen, more) == answer
  {
    var phi: Potential := _ => 0;
    forall d | d in w.decls ensures CoveredDecl(w, phi, d) {
      match w.decls[d]
      case Interface(elements, bases) =>
        forall m | m in elements && m.Property? && m.typ.Some?
          ensures Covered(w, phi, d.file, m.typ.value, phi(d) + 1)
        {
          CoveredWithoutIndexedAccess(w, d.file, m.typ.value, 1);
        }
      case Alias(typ) =>
        CoveredWithoutIndexedAccess(w, d.file, typ, 0);
      case Enum =>
    }
    fuel, answer := WalkEndsSoundly(w, phi, id, steps, seen);
  }

  // ---------------------------------------------------------------- a walk that never ends

  /** The one-declaration world of `type Name = Name[key]`. */
  function SelfIndexed(id: DeclId, name: string, key: string): World {
    World(map[(id.file, name) := id], map[id := Alias(Indexed(Reference(name, false, []), Some(key)))])
  }

  /** Each round lengthens the path, so the record never catches the recursion. */
  lemma {:induction false} SelfIndexedNeverEnds(
    id: DeclId, name: string, key: string, steps: seq<Step>, seen: Seen, fuel: nat)
    requires steps != [] && forall d, l :: (d, l) in seen ==> l < |steps|
    ensures LookupDecl(SelfIndexed(id, name, key), id, steps, seen, fuel).Exhausted?
    decreases fuel
  {
    var w := SelfIndexed(id, name, key);
    var entered, longer := seen + {(id, |steps|)}, [Member(key)] + steps;
    var reference := Reference(name, false, []);
    assert (id, |steps|) !in seen;
    if fuel >= 1 {
      assert LookupDecl(w, id, steps, seen, fuel) ==
             LookupType(w, id.file, Indexed(reference, Some(key)), steps, entered, fuel - 1);
    }
    if fuel >= 2 {
      assert LookupType(w, id.file, Indexed(reference, Some(key)), steps, entered, fuel - 1) ==
             LookupType(w, id.file, reference, longer, entered, fuel - 2);
    }
    if fuel >= 3 {
      SelfIndexedNeverEnds(id, name, key, longer, entered, fuel - 3);
      assert LookupType(w, id.file, reference, longer, entered, fuel - 2) ==
             LookupDecl(w, id, longer, entered, fuel - 3);
    }
  }
}
