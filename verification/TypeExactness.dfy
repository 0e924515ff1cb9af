/**
 Where the presence check loses nothing, through declarations and for paths of any length: a path
 that enters no declaration twice with the same number of steps left is answered found exactly when
 it is certainly there, and missing exactly when it cannot be there.
 */
module TypeExactness {
  import opened Outcomes
  import opened Sorting
  import opened TypeLookup
  import opened TypeMisreadings
  import opened TypeHeritage
  import opened TypeGrowth

  /** Interfaces inherit from interfaces, as far as they can be seen. */
  ghost predicate InterfaceBases(w: World) {
    forall id, b :: id in w.decls && w.decls[id].Interface? && b in w.decls[id].bases && Readable(w, id.file, b) ==>
      w.decls[Resolve(w, id.file, b.name).value].Interface?
  }

  // ---------------------------------------------------------------- what a path runs through

  type Entry = (DeclId, nat)

  /** The declarations that a path runs through, each with the number of steps left. */
  datatype Line = Endless | Line(entries: seq<Entry>)

  function Joined(front: Line, back: Line): Line {
    if front.Endless? || back.Endless? then Endless else Line(front.entries + back.entries)
  }

  function DeclLine(w: World, id: DeclId, steps: seq<Step>, fuel: nat): Line
    requires id in w.decls
    decreases fuel, 1, 0
  {
    if fuel == 0 then Endless
    else if steps == [] || w.decls[id].Enum? then Line([])
    else
      Joined(Line([(id, |steps|)]),
           match w.decls[id]
           case Interface(elements, bases) =>
             if !steps[0].Member? then Line([])
             else if FindProperty(elements, steps[0].name).Some? then
               PropertyLine(w, id.file, FindProperty(elements, steps[0].name).value, steps, fuel - 1)
             else BasesLine(w, id.file, bases, steps, fuel - 1)
           case Alias(typ) => TypeLine(w, id.file, typ, steps, fuel - 1)
           case Enum => Line([]))
  }

  function PropertyLine(w: World, file: string, m: TypeElement, steps: seq<Step>, fuel: nat): Line
    requires steps != []
    decreases fuel, 2, 0
  {
    if |steps| > 1 && m.Property? && m.typ.Some? then TypeLine(w, file, m.typ.value, steps[1..], fuel) else Line([])
  }

  function BasesLine(w: World, file: string, bases: seq<Base>, steps: seq<Step>, fuel: nat): Line
    decreases fuel, 2, |bases|
  {
    if bases == [] then Line([])
    else
      var last := bases[|bases| - 1];
      Joined(BasesLine(w, file, bases[..|bases| - 1], steps, fuel),
           if Readable(w, file, last) then DeclLine(w, Resolve(w, file, last.name).value, steps, fuel) else Line([]))
  }

  function TypesLine(w: World, file: string, ts: seq<Type>, steps: seq<Step>, fuel: nat): Line
    decreases fuel, 2, |ts|
  {
    if ts == [] then Line([])
    else
      Joined(TypesLine(w, file, ts[..|ts| - 1], steps, fuel), TypeLine(w, file, ts[|ts| - 1], steps, fuel))
  }

  function TypeLine(w: World, file: string, t: Type, steps: seq<Step>, fuel: nat): Line
    decreases fuel, 1, 0
  {
    if fuel == 0 then Endless
    else if steps == [] then Line([])
    else
      match t
      case Literal(elements) =>
        if steps[0].Member? && FindProperty(elements, steps[0].name).Some? then
          PropertyLine(w, file, FindProperty(elements, steps[0].name).value, steps, fuel - 1)
        else Line([])
      case Parenthesized(inner) => TypeLine(w, file, inner, steps, fuel - 1)
      case Intersection(parts) => TypesLine(w, file, parts, steps, fuel - 1)
      case Union(branches) => TypesLine(w, file, branches, steps, fuel - 1)
      case ArrayOf(element) => if steps[0].Element? then TypeLine(w, file, element, steps[1..], fuel - 1) else Line([])
      case Operator(_, operand) => TypeLine(w, file, operand, steps, fuel - 1)
      case Indexed(target, key) =>
        if key.Some? then TypeLine(w, file, target, [Member(key.value)] + steps, fuel - 1) else Line([])
      case Reference(head, qualified, arguments) =>
        if Passthrough(head) && arguments != [] then TypeLine(w, file, arguments[0], steps, fuel - 1)
        else if ArrayName(head) && arguments != [] then
          if steps[0].Element? then TypeLine(w, file, arguments[0], steps[1..], fuel - 1) else Line([])
        else if qualified || Resolve(w, file, head).None? then Line([])
        else DeclLine(w, Resolve(w, file, head).value, steps, fuel - 1)
      case OtherType => Line([])
  }

  // ---------------------------------------------------------------- entering once

  /** Nothing on the line was entered before, and nothing is entered twice. */
  ghost predicate Once(line: Line, seen: Seen) {
    line.Line? && NoDuplicates(line.entries) && forall e :: e in line.entries ==> e !in seen
  }

  ghost function Entering(line: Line, seen: Seen): Seen
    requires line.Line?
  {
    seen + set e | e in line.entries
  }

  lemma OnceAdds(front: Line, back: Line, seen: Seen)
    requires Once(Joined(front, back), seen)
    ensures Once(front, seen) && Once(back, Entering(front, seen))
    ensures Entering(Joined(front, back), seen) == Entering(back, Entering(front, seen))
  {
    var all, n := front.entries + back.entries, |front.entries|;
    assert forall i :: 0 <= i < n ==> all[i] == front.entries[i];
    assert forall i :: 0 <= i < |back.entries| ==> all[n + i] == back.entries[i];
    forall e | e in back.entries ensures e !in Entering(front, seen) {
      var j :| 0 <= j < |back.entries| && back.entries[j] == e;
      assert all[n + j] in all;
    }
    assert forall e :: e in front.entries ==> e in all;
  }

  lemma NoneEntered(seen: Seen)
    ensures Once(Line([]), seen) && Entering(Line([]), seen) == seen
  {
  }

  // ---------------------------------------------------------------- exactness

  ghost predicate ExactForDecl(result: PathLookup, w: World, id: DeclId, steps: seq<Step>) {
    (result.Found? <==> MustDecl(w, id, steps)) && (result.Missing? <==> !MayDecl(w, id, steps))
  }

  /** The walk enters exactly this line, and its answer is exact. */
  ghost predicate DeclExactly(walk: Walk, line: Line, seen: Seen, w: World, id: DeclId, steps: seq<Step>)
    requires line.Line?
  {
    walk.Done? && walk.seen == Entering(line, seen) && ExactForDecl(walk.result, w, id, steps)
  }

  ghost predicate TypeExactly(walk: Walk, line: Line, seen: Seen, w: World, file: string, t: Type, steps: seq<Step>)
    requires line.Line?
  {
    walk.Done? && walk.seen == Entering(line, seen) && ExactForType(walk, w, file, t, steps)
  }

  /** What is exact for a property: the type behind it answers for the rest of the path. */
  ghost predicate PropertyExactly(
    walk: Walk, line: Line, seen: Seen, w: World, file: string, m: TypeElement, steps: seq<Step>)
    requires line.Line? && steps != [] && m.Property?
  {
    && walk.Done? && walk.seen == Entering(line, seen)
    && if |steps| == 1 then walk.result.Found?
       else if m.typ.None? then walk.result.Unknown?
       else
         && (walk.result.Found? <==> MustType(w, file, m.typ.value, steps[1..]))
         && (walk.result.Missing? <==> !MayType(w, file, m.typ.value, steps[1..]))
  }

  /** Each heritage entry is answered exactly, or not known when it is out of reach. */
  ghost predicate ExactBases(results: seq<PathLookup>, w: World, file: string, bases: seq<Base>, steps: seq<Step>) {
    && |results| == |bases|
    && forall i :: 0 <= i < |bases| ==> ExactBase(results[i], w, file, bases[i], steps)
  }

  ghost predicate ExactBase(result: PathLookup, w: World, file: string, b: Base, steps: seq<Step>) {
    if Readable(w, file, b) then ExactForDecl(result, w, Resolve(w, file, b.name).value, steps) else result.Unknown?
  }

  least lemma NoElementsOfInterfaces(w: World, id: DeclId, steps: seq<Step>)
    requires MustDecl(w, id, steps)
    requires InterfaceBases(w) && id in w.decls && w.decls[id].Interface? && steps != [] && steps[0].Element?
    ensures false
  {
  }

  lemma HeritageExact(w: World, file: string, bases: seq<Base>, steps: seq<Step>, results: seq<PathLookup>)
    requires ExactBases(results, w, file, bases, steps)
    ensures Combine(results).Found? <==> HeritageMust(w, file, bases, steps)
    ensures Combine(results).Missing? <==> !HeritageMay(w, file, bases, steps)
  {
    if HeritageMust(w, file, bases, steps) {
      var b :| b in bases && b.NamedBase? && Resolve(w, file, b.name).Some? &&
        MustDecl(w, Resolve(w, file, b.name).value, steps);
      var i :| 0 <= i < |bases| && bases[i] == b;
      assert ExactBase(results[i], w, file, bases[i], steps) && results[i] in results;
    }
    if Combine(results).Found? {
      var i :| 0 <= i < |results| && results[i] == Found;
      assert ExactBase(results[i], w, file, bases[i], steps) && bases[i] in bases;
    }
    if Combine(results).Missing? {
      forall b | b in bases
        ensures Readable(w, file, b) && !MayDecl(w, Resolve(w, file, b.name).value, steps)
      {
        var i :| 0 <= i < |bases| && bases[i] == b;
        assert ExactBase(results[i], w, file, bases[i], steps) && results[i] in results;
      }
    }
    if !HeritageMay(w, file, bases, steps) {
      forall r | r in results ensures r.Missing? {
        var i :| 0 <= i < |results| && results[i] == r;
        assert ExactBase(results[i], w, file, bases[i], steps) && bases[i] in bases;
      }
      CombineMissing(results);
    }
  }

  /** An interface with plain members answers for its property, or as its heritage. */
  lemma InterfaceExact(w: World, id: DeclId, steps: seq<Step>, result: PathLookup)
    requires id in w.decls && w.decls[id].Interface? && steps != [] && steps[0].Member?
    requires PlainElements(w.decls[id].elements)
    requires var direct := FindProperty(w.decls[id].elements, steps[0].name);
             if direct.Some? then
               ExactForType(Done(result, {}), w, id.file, Literal(w.decls[id].elements), steps)
             else
               && (result.Found? <==> HeritageMust(w, id.file, w.decls[id].bases, steps))
               && (result.Missing? <==> !HeritageMay(w, id.file, w.decls[id].bases, steps))
    ensures ExactForDecl(result, w, id, steps)
  {
    var elements := w.decls[id].elements;
    PlainWritesWhatItDeclares(elements, steps[0].name);
    if Named(elements, steps[0].name) {
      InterfaceHolds(w, id, steps);
      LiteralHolds(w, id.file, elements, steps);
    } else {
      UnnamedHolds(w, id, steps);
    }
  }

  lemma {:induction false} DeclAnswersExactly(w: World, id: DeclId, steps: seq<Step>, seen: Seen, fuel: nat)
    requires PlainWorld(w) && InterfaceBases(w) && id in w.decls && Once(DeclLine(w, id, steps, fuel), seen)
    ensures DeclExactly(LookupDecl(w, id, steps, seen, fuel), DeclLine(w, id, steps, fuel), seen, w, id, steps)
    decreases fuel, 1, 0
  {
    NoneEntered(seen);
    if steps != [] && !w.decls[id].Enum? {
      var entered := seen + {(id, |steps|)};
      EntryOnce(w, id, steps, seen, fuel);
      match w.decls[id]
      case Interface(elements, bases) =>
        if steps[0].Member? {
          MemberOfInterface(w, id, steps, entered, fuel);
        } else {
          NoneEntered(entered);
          if MustDecl(w, id, steps) {
            NoElementsOfInterfaces(w, id, steps);
          }
        }
      case Alias(typ) =>
        TypeAnswersExactly(w, id.file, typ, steps, entered, fuel - 1);
    }
  }

  /** What is left of the line once the declaration is entered. */
  function RestLine(w: World, id: DeclId, steps: seq<Step>, fuel: nat): Line
    requires id in w.decls && !w.decls[id].Enum? && steps != [] && fuel > 0
  {
    match w.decls[id]
    case Interface(elements, bases) =>
      if !steps[0].Member? then Line([])
      else if FindProperty(elements, steps[0].name).Some? then
        PropertyLine(w, id.file, FindProperty(elements, steps[0].name).value, steps, fuel - 1)
      else BasesLine(w, id.file, bases, steps, fuel - 1)
    case Alias(typ) => TypeLine(w, id.file, typ, steps, fuel - 1)
  }

  lemma EntryOnce(w: World, id: DeclId, steps: seq<Step>, seen: Seen, fuel: nat)
    requires id in w.decls && !w.decls[id].Enum? && steps != [] && Once(DeclLine(w, id, steps, fuel), seen)
    ensures fuel > 0 && (id, |steps|) !in seen && Once(RestLine(w, id, steps, fuel), seen + {(id, |steps|)})
    ensures Entering(DeclLine(w, id, steps, fuel), seen) ==
              Entering(RestLine(w, id, steps, fuel), seen + {(id, |steps|)})
  {
    var own := Line([(id, |steps|)]);
    assert DeclLine(w, id, steps, fuel) == Joined(own, RestLine(w, id, steps, fuel));
    OnceAdds(own, RestLine(w, id, steps, fuel), seen);
    assert (id, |steps|) in own.entries;
    assert Entering(own, seen) == seen + {(id, |steps|)};
  }

  lemma {:induction false} MemberOfInterface(w: World, id: DeclId, steps: seq<Step>, entered: Seen, fuel: nat)
    requires PlainWorld(w) && InterfaceBases(w) && id in w.decls && w.decls[id].Interface? && fuel > 0
    requires steps != [] && steps[0].Member? && Once(RestLine(w, id, steps, fuel), entered)
    ensures var walk := if FindProperty(w.decls[id].elements, steps[0].name).Some? then
                          IntoProperty(
                            w, id.file, FindProperty(w.decls[id].elements, steps[0].name).value, steps, entered,
                            fuel - 1)
                        else
                          match LookupBases(w, id.file, w.decls[id].bases, steps, entered, fuel - 1)
                          case AnyExhausted => Exhausted
                          case AllDone(results, after) => Done(Combine(results), after);
            DeclExactly(walk, RestLine(w, id, steps, fuel), entered, w, id, steps)
    decreases fuel, 0, 0
  {
    var elements, bases := w.decls[id].elements, w.decls[id].bases;
    assert PlainDecl(w.decls[id]);
    FindPropertyIn(elements, steps[0].name);
    if FindProperty(elements, steps[0].name).Some? {
      var m := FindProperty(elements, steps[0].name).value;
      PropertyAnswersExactly(w, id.file, m, steps, entered, fuel - 1);
      var walk := IntoProperty(w, id.file, m, steps, entered, fuel - 1);
      MemberOfLiteral(w, id.file, elements, steps, walk, m);
      InterfaceExact(w, id, steps, walk.result);
    } else {
      BasesAnswerExactly(w, id.file, bases, steps, entered, fuel - 1);
      var walks := LookupBases(w, id.file, bases, steps, entered, fuel - 1);
      HeritageExact(w, id.file, bases, steps, walks.results);
      InterfaceExact(w, id, steps, Combine(walks.results));
    }
  }

  /** The only member of this key decides. */
  lemma MemberOfLiteral(
    w: World, file: string, elements: seq<TypeElement>, steps: seq<Step>, walk: Walk, m: TypeElement)
    requires PlainElements(elements) && steps != [] && steps[0].Member? && walk.Done?
    requires FindProperty(elements, steps[0].name) == Some(m)
    requires if |steps| == 1 then walk.result.Found?
             else if !m.Property? || m.typ.None? then walk.result.Unknown?
             else
               && (walk.result.Found? <==> MustType(w, file, m.typ.value, steps[1..]))
               && (walk.result.Missing? <==> !MayType(w, file, m.typ.value, steps[1..]))
    ensures ExactForType(walk, w, file, Literal(elements), steps)
    ensures ExactForType(Done(walk.result, {}), w, file, Literal(elements), steps)
  {
    FindPropertyIn(elements, steps[0].name);
    var only := OnlyMember(elements, steps[0].name);
    LiteralMemberExact(w, file, elements, steps, walk, m);
  }

  lemma {:induction false} PropertyAnswersExactly(
    w: World, file: string, m: TypeElement, steps: seq<Step>, seen: Seen, fuel: nat)
    requires PlainWorld(w) && InterfaceBases(w) && m.Property? && (m.typ.Some? ==> PlainType(m.typ.value))
    requires steps != [] && Once(PropertyLine(w, file, m, steps, fuel), seen)
    ensures PropertyExactly(IntoProperty(w, file, m, steps, seen, fuel), PropertyLine(w, file, m, steps, fuel), seen,
                            w, file, m, steps)
    decreases fuel, 2, 0
  {
    NoneEntered(seen);
    if |steps| > 1 && m.typ.Some? {
      TypeAnswersExactly(w, file, m.typ.value, steps[1..], seen, fuel);
    }
  }

  lemma {:induction false} BasesAnswerExactly(
    w: World, file: string, bases: seq<Base>, steps: seq<Step>, seen: Seen, fuel: nat)
    requires PlainWorld(w) && InterfaceBases(w) && Once(BasesLine(w, file, bases, steps, fuel), seen)
    ensures var walks := LookupBases(w, file, bases, steps, seen, fuel);
            && walks.AllDone? && walks.seen == Entering(BasesLine(w, file, bases, steps, fuel), seen)
            && ExactBases(walks.results, w, file, bases, steps)
    decreases fuel, 2, |bases|
  {
    NoneEntered(seen);
    if bases != [] {
      var front, last := bases[..|bases| - 1], bases[|bases| - 1];
      var line := BasesLine(w, file, front, steps, fuel);
      var back :=
        if Readable(w, file, last) then DeclLine(w, Resolve(w, file, last.name).value, steps, fuel) else Line([]);
      OnceAdds(line, back, seen);
      BasesAnswerExactly(w, file, front, steps, seen, fuel);
      NoneEntered(Entering(line, seen));
      var results := LookupBases(w, file, front, steps, seen, fuel).results;
      if Readable(w, file, last) {
        var to := Resolve(w, file, last.name).value;
        DeclAnswersExactly(w, to, steps, Entering(line, seen), fuel);
        OneMoreExact(results, LookupDecl(w, to, steps, Entering(line, seen), fuel).result, w, file, bases, steps);
      } else {
        OneMoreExact(results, Unknown, w, file, bases, steps);
      }
    }
  }

  lemma OneMoreExact(
    results: seq<PathLookup>, r: PathLookup, w: World, file: string, bases: seq<Base>, steps: seq<Step>)
    requires bases != [] && ExactBases(results, w, file, bases[..|bases| - 1], steps)
    requires ExactBase(r, w, file, bases[|bases| - 1], steps)
    ensures ExactBases(results + [r], w, file, bases, steps)
  {
    forall i | 0 <= i < |bases| ensures ExactBase((results + [r])[i], w, file, bases[i], steps) {
      if i < |results| {
        assert bases[..|bases| - 1][i] == bases[i];
      }
    }
  }

  lemma {:induction false} TypesAnswerExactly(
    w: World, file: string, ts: seq<Type>, steps: seq<Step>, seen: Seen, fuel: nat)
    requires PlainWorld(w) && InterfaceBases(w) && (forall t :: t in ts ==> PlainType(t))
    requires Once(TypesLine(w, file, ts, steps, fuel), seen)
    ensures var walks := LookupTypes(w, file, ts, steps, seen, fuel);
            && walks.AllDone? && walks.seen == Entering(TypesLine(w, file, ts, steps, fuel), seen)
            && ExactEach(walks.results, w, file, ts, steps)
    decreases fuel, 2, |ts|
  {
    NoneEntered(seen);
    if ts != [] {
      var front, last := ts[..|ts| - 1], ts[|ts| - 1];
      var line := TypesLine(w, file, front, steps, fuel);
      OnceAdds(line, TypeLine(w, file, last, steps, fuel), seen);
      TypesAnswerExactly(w, file, front, steps, seen, fuel);
      TypeAnswersExactly(w, file, last, steps, Entering(line, seen), fuel);
    }
  }

  lemma {:induction false} TypeAnswersExactly(w: World, file: string, t: Type, steps: seq<Step>, seen: Seen, fuel: nat)
    requires PlainWorld(w) && InterfaceBases(w) && PlainType(t) && Once(TypeLine(w, file, t, steps, fuel), seen)
    ensures TypeExactly(LookupType(w, file, t, steps, seen, fuel), TypeLine(w, file, t, steps, fuel), seen, w, file,
                        t, steps)
    decreases fuel, 1, 0
  {
    NoneEntered(seen);
    if steps != [] {
      match t
      case Literal(elements) =>
        if steps[0].Member? {
          FindPropertyIn(elements, steps[0].name);
          if FindProperty(elements, steps[0].name).Some? {
            var m := FindProperty(elements, steps[0].name).value;
            PropertyAnswersExactly(w, file, m, steps, seen, fuel - 1);
            MemberOfLiteral(w, file, elements, steps, IntoProperty(w, file, m, steps, seen, fuel - 1), m);
          }
        }
      case Parenthesized(inner) =>
        TypeAnswersExactly(w, file, inner, steps, seen, fuel - 1);
      case Intersection(parts) =>
        TypesAnswerExactly(w, file, parts, steps, seen, fuel - 1);
        IntersectionExact(w, file, parts, steps, LookupTypes(w, file, parts, steps, seen, fuel - 1).results);
      case Union(branches) =>
        TypesAnswerExactly(w, file, branches, steps, seen, fuel - 1);
        UnionExact(w, file, branches, steps, LookupTypes(w, file, branches, steps, seen, fuel - 1).results);
      case ArrayOf(element) =>
        if steps[0].Element? {
          TypeAnswersExactly(w, file, element, steps[1..], seen, fuel - 1);
        }
      case Operator(_, operand) =>
        TypeAnswersExactly(w, file, operand, steps, seen, fuel - 1);
      case Indexed(target, key) =>
        if key.Some? {
          TypeAnswersExactly(w, file, target, [Member(key.value)] + steps, seen, fuel - 1);
        }
      case Reference(head, qualified, arguments) =>
        ReferenceAnswersExactly(w, file, t, steps, seen, fuel);
      case OtherType =>
    }
  }

  lemma {:induction false} ReferenceAnswersExactly(
    w: World, file: string, t: Type, steps: seq<Step>, seen: Seen, fuel: nat)
    requires PlainWorld(w) && InterfaceBases(w) && PlainType(t) && t.Reference? && steps != []
    requires Once(TypeLine(w, file, t, steps, fuel), seen)
    ensures TypeExactly(LookupType(w, file, t, steps, seen, fuel), TypeLine(w, file, t, steps, fuel), seen, w, file,
                        t, steps)
    decreases fuel, 0, 0
  {
    var head, arguments := t.head, t.arguments;
    NoneEntered(seen);
    if Passthrough(head) && arguments != [] {
      assert arguments[0] in arguments;
      TypeAnswersExactly(w, file, arguments[0], steps, seen, fuel - 1);
    } else if ArrayName(head) && arguments != [] {
      assert arguments[0] in arguments;
      if steps[0].Element? {
        TypeAnswersExactly(w, file, arguments[0], steps[1..], seen, fuel - 1);
      }
    } else if !t.qualified && Resolve(w, file, head).Some? {
      DeclAnswersExactly(w, Resolve(w, file, head).value, steps, seen, fuel - 1);
    }
  }

  /**
   On plain types, a path that runs through no declaration twice with the same number of steps left
   is answered found exactly when it is on every branch, and missing exactly when it is on none:
   whatever its length, and through recursive declarations.
   */
  lemma PathAnsweredExactly(w: World, id: DeclId, steps: seq<Step>, fuel: nat)
    requires PlainWorld(w) && InterfaceBases(w) && id in w.decls
    requires DeclLine(w, id, steps, fuel).Line? && NoDuplicates(DeclLine(w, id, steps, fuel).entries)
    ensures var walk := LookupDecl(w, id, steps, {}, fuel);
            && walk.Done?
            && (walk.result.Found? <==> MustDecl(w, id, steps))
            && (walk.result.Missing? <==> !MayDecl(w, id, steps))
  {
    DeclAnswersExactly(w, id, steps, {}, fuel);
  }

  // ---------------------------------------------------------------- without reference cycles

  /** References and heritage lead to lower ranks. */
  ghost predicate AcyclicWorld(w: World, rank: Rank) {
    forall id :: id in w.decls ==>
      match w.decls[id]
      case Interface(elements, bases) =>
        && Descends(w, rank, id.file, Literal(elements), rank(id), true, true)
        && forall b :: b in bases && Readable(w, id.file, b) ==> rank(Resolve(w, id.file, b.name).value) < rank(id)
      case Alias(typ) => Descends(w, rank, id.file, typ, rank(id), true, true)
      case Enum => true
  }

  ghost predicate DeclLineFrom(w: World, id: DeclId, steps: seq<Step>, least: nat)
    requires id in w.decls
  {
    forall fuel: nat :: fuel >= least ==> DeclLine(w, id, steps, fuel).Line?
  }

  ghost predicate TypeLineFrom(w: World, file: string, t: Type, steps: seq<Step>, least: nat) {
    forall fuel: nat :: fuel >= least ==> TypeLine(w, file, t, steps, fuel).Line?
  }

  /** With enough fuel, the line of a path is complete. */
  lemma {:induction false} DeclLineEnds(w: World, rank: Rank, id: DeclId, steps: seq<Step>) returns (least: nat)
    requires AcyclicWorld(w, rank) && id in w.decls
    ensures DeclLineFrom(w, id, steps, least)
    decreases rank(id), 1
  {
    least := 1;
    if steps != [] {
      match w.decls[id]
      case Interface(elements, bases) =>
        if steps[0].Member? {
          FindPropertyIn(elements, steps[0].name);
          var below := 0;
          if FindProperty(elements, steps[0].name).Some? {
            below := PropertyLineEnds(w, rank, id.file, elements, steps, rank(id));
          } else {
            below := BasesLineEnds(w, rank, id.file, bases, steps, rank(id));
          }
          least := below + 1;
        }
      case Alias(typ) =>
        var below := TypeLineEnds(w, rank, id.file, typ, steps, rank(id));
        least := below + 1;
      case Enum =>
    }
  }

  lemma {:induction false} PropertyLineEnds(
    w: World, rank: Rank, file: string, elements: seq<TypeElement>, steps: seq<Step>, from: nat)
    returns (least: nat)
    requires AcyclicWorld(w, rank) && Descends(w, rank, file, Literal(elements), from, true, true)
    requires steps != [] && steps[0].Member? && FindProperty(elements, steps[0].name).Some?
    ensures forall fuel: nat :: fuel >= least ==>
              PropertyLine(w, file, FindProperty(elements, steps[0].name).value, steps, fuel).Line?
    decreases from, 0, elements
  {
    FindPropertyIn(elements, steps[0].name);
    var m := FindProperty(elements, steps[0].name).value;
    least := 0;
    if |steps| > 1 && m.typ.Some? {
      least := TypeLineEnds(w, rank, file, m.typ.value, steps[1..], from);
    }
  }

  lemma {:induction false} BasesLineEnds(
    w: World, rank: Rank, file: string, bases: seq<Base>, steps: seq<Step>, from: nat)
    returns (least: nat)
    requires AcyclicWorld(w, rank)
    requires forall b :: b in bases && Readable(w, file, b) ==> rank(Resolve(w, file, b.name).value) < from
    ensures forall fuel: nat :: fuel >= least ==> BasesLine(w, file, bases, steps, fuel).Line?
    decreases from, 0, bases
  {
    least := 0;
    if bases != [] {
      var last := bases[|bases| - 1];
      var front := BasesLineEnds(w, rank, file, bases[..|bases| - 1], steps, from);
      var own := 0;
      if Readable(w, file, last) {
        own := DeclLineEnds(w, rank, Resolve(w, file, last.name).value, steps);
      }
      least := front + own;
    }
  }

  lemma {:induction false} TypesLineEnds(w: World, rank: Rank, file: string, ts: seq<Type>, steps: seq<Step>, from: nat)
    returns (least: nat)
    requires AcyclicWorld(w, rank) && forall t :: t in ts ==> Descends(w, rank, file, t, from, true, true)
    ensures forall fuel: nat :: fuel >= least ==> TypesLine(w, file, ts, steps, fuel).Line?
    decreases from, 0, ts
  {
    least := 0;
    if ts != [] {
      var front := TypesLineEnds(w, rank, file, ts[..|ts| - 1], steps, from);
      var own := TypeLineEnds(w, rank, file, ts[|ts| - 1], steps, from);
      least := front + own;
    }
  }

  lemma {:induction false} TypeLineEnds(w: World, rank: Rank, file: string, t: Type, steps: seq<Step>, from: nat)
    returns (least: nat)
    requires AcyclicWorld(w, rank) && Descends(w, rank, file, t, from, true, true)
    ensures TypeLineFrom(w, file, t, steps, least)
    decreases from, 0, t
  {
    var below := 0;
    if steps != [] {
      match t
      case Literal(elements) =>
        if steps[0].Member? && FindProperty(elements, steps[0].name).Some? {
          below := PropertyLineEnds(w, rank, file, elements, steps, from);
        }
      case Parenthesized(inner) => below := TypeLineEnds(w, rank, file, inner, steps, from);
      case Intersection(parts) => below := TypesLineEnds(w, rank, file, parts, steps, from);
      case Union(branches) => below := TypesLineEnds(w, rank, file, branches, steps, from);
      case ArrayOf(element) =>
        if steps[0].Element? {
          below := TypeLineEnds(w, rank, file, element, steps[1..], from);
        }
      case Operator(_, operand) => below := TypeLineEnds(w, rank, file, operand, steps, from);
      case Indexed(target, key) =>
        if key.Some? {
          below := TypeLineEnds(w, rank, file, target, [Member(key.value)] + steps, from);
        }
      case Reference(head, qualified, arguments) =>
        if (Passthrough(head) || ArrayName(head)) && arguments != [] {
          assert arguments[0] in arguments;
          if Passthrough(head) {
            below := TypeLineEnds(w, rank, file, arguments[0], steps, from);
          } else if steps[0].Element? {
            below := TypeLineEnds(w, rank, file, arguments[0], steps[1..], from);
          }
        } else if !qualified && Resolve(w, file, head).Some? {
          below := DeclLineEnds(w, rank, Resolve(w, file, head).value, steps);
        }
      case OtherType =>
    }
    least := below + 1;
  }

  /**
   Without reference cycles the line of every path is complete with enough fuel, and the answer is
   exact unless a declaration is entered twice with the same number of steps left.
   */
  lemma AcyclicAnswersExactly(w: World, rank: Rank, id: DeclId, steps: seq<Step>) returns (least: nat)
    requires PlainWorld(w) && InterfaceBases(w) && AcyclicWorld(w, rank) && id in w.decls
    ensures forall fuel: nat :: fuel >= least ==>
              var walk, line := LookupDecl(w, id, steps, {}, fuel), DeclLine(w, id, steps, fuel);
              && line.Line?
              && (NoDuplicates(line.entries) ==>
                    && walk.Done?
                    && (walk.result.Found? <==> MustDecl(w, id, steps))
                    && (walk.result.Missing? <==> !MayDecl(w, id, steps)))
  {
    least := DeclLineEnds(w, rank, id, steps);
    forall fuel: nat | fuel >= least && NoDuplicates(DeclLine(w, id, steps, fuel).entries)
      ensures var walk := LookupDecl(w, id, steps, {}, fuel);
              && walk.Done?
              && (walk.result.Found? <==> MustDecl(w, id, steps))
              && (walk.result.Missing? <==> !MayDecl(w, id, steps))
    {
      PathAnsweredExactly(w, id, steps, fuel);
    }
  }
}
