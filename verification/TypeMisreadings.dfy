/**
 Where the presence check of a key path is wrong about TypeScript: members that are not property
 signatures, names that are written with quotes, and type operators other than `readonly`.
 */
module TypeMisreadings {
  import opened Outcomes
  import opened TypeLookup

  // ---------------------------------------------------------------- what a list of members admits

  ghost predicate Named(elements: seq<TypeElement>, key: string) {
    exists m :: m in elements && Declares(m, key)
  }

  /** The members themselves certainly hold the path. */
  ghost predicate OwnMust(w: World, file: string, elements: seq<TypeElement>, steps: seq<Step>)
    requires steps != [] && steps[0].Member?
  {
    exists m :: m in elements && Declares(m, steps[0].name) &&
      (|steps| == 1 || (Behind(m).Some? && MustType(w, file, Behind(m).value, steps[1..])))
  }

  /** The member is what decides about a key: it declares the key, or admits every key that none declares. */
  ghost predicate Admits(elements: seq<TypeElement>, m: TypeElement, key: string) {
    m in elements && (Declares(m, key) || (m.IndexSignature? && !Named(elements, key)))
  }

  /** The members themselves may hold the path. */
  ghost predicate OwnMay(w: World, file: string, elements: seq<TypeElement>, steps: seq<Step>)
    requires steps != [] && steps[0].Member?
  {
    exists m :: Admits(elements, m, steps[0].name) &&
      (|steps| == 1 || Behind(m).None? || MayType(w, file, Behind(m).value, steps[1..]))
  }

  lemma LiteralHolds(w: World, file: string, elements: seq<TypeElement>, steps: seq<Step>)
    requires steps != [] && steps[0].Member?
    ensures MustType(w, file, Literal(elements), steps) <==> OwnMust(w, file, elements, steps)
    ensures MayType(w, file, Literal(elements), steps) <==> OwnMay(w, file, elements, steps)
  {
    if OwnMay(w, file, elements, steps) {
      var m :| Admits(elements, m, steps[0].name) &&
        (|steps| == 1 || Behind(m).None? || MayType(w, file, Behind(m).value, steps[1..]));
      assert Named(elements, steps[0].name) <==> Declares(m, steps[0].name);
    }
    if MayType(w, file, Literal(elements), steps) {
      if Named(elements, steps[0].name) {
        var m :| m in elements && Declares(m, steps[0].name) &&
          (|steps| == 1 || Behind(m).None? || MayType(w, file, Behind(m).value, steps[1..]));
        assert Admits(elements, m, steps[0].name);
      } else {
        var m :| m in elements && m.IndexSignature? && (|steps| == 1 || MayType(w, file, m.value, steps[1..]));
        assert Admits(elements, m, steps[0].name);
      }
    }
  }

  /**
   When no property signature is written like the first name, a literal is reported to miss the
   path; that is right exactly when no member that admits the name can lead on.
   */
  lemma LiteralAnswerRightIff(
    w: World, file: string, elements: seq<TypeElement>, steps: seq<Step>, seen: Seen, fuel: nat)
    requires fuel > 0 && steps != [] && steps[0].Member? && FindProperty(elements, steps[0].name).None?
    ensures var walk := LookupType(w, file, Literal(elements), steps, seen, fuel);
            walk == Done(Missing, seen) &&
            (SoundForType(walk, w, file, Literal(elements), steps) <==> !OwnMay(w, file, elements, steps))
  {
    LiteralHolds(w, file, elements, steps);
  }

  /** What the members of a literal must be like for the answer about a single name to be right. */
  ghost predicate ReadAsDeclared(elements: seq<TypeElement>, name: string) {
    if FindProperty(elements, name).Some? then Named(elements, name)
    else !Named(elements, name) && forall m :: m in elements ==> !m.IndexSignature?
  }

  /**
   The answer of any literal about any single name is right exactly when a property signature
   written like the name comes with a member that declares it, and otherwise no member declares
   the name and there is no index signature.
   */
  lemma OneNameRightIff(w: World, file: string, elements: seq<TypeElement>, name: string, seen: Seen, fuel: nat)
    requires fuel > 0
    ensures var walk := LookupType(w, file, Literal(elements), [Member(name)], seen, fuel);
            walk.Done? &&
            (SoundForType(walk, w, file, Literal(elements), [Member(name)]) <==> ReadAsDeclared(elements, name))
  {
    var steps := [Member(name)];
    LiteralHolds(w, file, elements, steps);
    if FindProperty(elements, name).Some? {
      assert IntoProperty(w, file, FindProperty(elements, name).value, steps, seen, fuel - 1) == Done(Found, seen);
    } else {
      assert OwnMay(w, file, elements, steps) <==> exists m :: Admits(elements, m, name);
      if m :| Declares(m, name) && m in elements {
        assert Admits(elements, m, name);
      } else if m :| m in elements && m.IndexSignature? {
        assert Admits(elements, m, name);
      }
    }
  }

  // ---------------------------------------------------------------- interfaces

  lemma InterfaceHolds(w: World, id: DeclId, steps: seq<Step>)
    requires id in w.decls && w.decls[id].Interface? && steps != [] && steps[0].Member?
    requires Named(w.decls[id].elements, steps[0].name)
    ensures MustDecl(w, id, steps) <==> OwnMust(w, id.file, w.decls[id].elements, steps)
    ensures MayDecl(w, id, steps) <==> OwnMay(w, id.file, w.decls[id].elements, steps)
  {
    var elements := w.decls[id].elements;
    forall m ensures Admits(elements, m, steps[0].name) <==> m in elements && Declares(m, steps[0].name) {
    }
  }

  /** The path is certainly there in some heritage entry. */
  ghost predicate HeritageMust(w: World, file: string, bases: seq<Base>, steps: seq<Step>) {
    exists b :: b in bases && b.NamedBase? && Resolve(w, file, b.name).Some? &&
      MustDecl(w, Resolve(w, file, b.name).value, steps)
  }

  ghost predicate HeritageMay(w: World, file: string, bases: seq<Base>, steps: seq<Step>) {
    exists b :: b in bases && (b.OtherBase? || Resolve(w, file, b.name).None? ||
      MayDecl(w, Resolve(w, file, b.name).value, steps))
  }

  lemma UnnamedHolds(w: World, id: DeclId, steps: seq<Step>)
    requires id in w.decls && w.decls[id].Interface? && steps != [] && steps[0].Member?
    requires !Named(w.decls[id].elements, steps[0].name)
    ensures MustDecl(w, id, steps) <==> HeritageMust(w, id.file, w.decls[id].bases, steps)
    ensures MayDecl(w, id, steps) <==>
              OwnMay(w, id.file, w.decls[id].elements, steps) || HeritageMay(w, id.file, w.decls[id].bases, steps)
  {
    var elements := w.decls[id].elements;
    forall m ensures Admits(elements, m, steps[0].name) <==> m in elements && m.IndexSignature? {
    }
  }

  /** When an answer is right for an interface whose own members and heritage are these. */
  ghost predicate AnswerFits(
    answer: PathLookup, w: World, file: string, elements: seq<TypeElement>, bases: seq<Base>, steps: seq<Step>)
    requires steps != [] && steps[0].Member?
  {
    match answer
    case Found =>
      if Named(elements, steps[0].name) then OwnMust(w, file, elements, steps) else HeritageMust(w, file, bases, steps)
    case Missing =>
      && !OwnMay(w, file, elements, steps)
      && (Named(elements, steps[0].name) || !HeritageMay(w, file, bases, steps))
    case Unknown => true
  }

  /**
   An interface that writes no property signature like the first name answers as its heritage
   does, and reports the path missing when it has none. Its own members come before the heritage,
   and a member it declares otherwise than by a property signature is passed over.
   */
  lemma InterfaceRightIff(w: World, id: DeclId, steps: seq<Step>, seen: Seen, fuel: nat)
    requires id in w.decls && w.decls[id].Interface? && steps != [] && steps[0].Member?
    requires FindProperty(w.decls[id].elements, steps[0].name).None?
    requires fuel > 0 && (id, |steps|) !in seen
    requires LookupBases(w, id.file, w.decls[id].bases, steps, seen + {(id, |steps|)}, fuel - 1).AllDone?
    ensures var walks := LookupBases(w, id.file, w.decls[id].bases, steps, seen + {(id, |steps|)}, fuel - 1);
            var walk := LookupDecl(w, id, steps, seen, fuel);
            walk == Done(Combine(walks.results), walks.seen) &&
            (SoundForDecl(walk, w, id, steps) <==>
               AnswerFits(Combine(walks.results), w, id.file, w.decls[id].elements, w.decls[id].bases, steps))
  {
    if Named(w.decls[id].elements, steps[0].name) {
      InterfaceHolds(w, id, steps);
    } else {
      UnnamedHolds(w, id, steps);
    }
  }

  /** When the combined answer of the heritage, being right, is right for the whole interface. */
  ghost predicate OwnMembersAgree(
    answer: PathLookup, w: World, file: string, elements: seq<TypeElement>, steps: seq<Step>)
    requires steps != [] && steps[0].Member?
  {
    match answer
    case Found => Named(elements, steps[0].name) ==> OwnMust(w, file, elements, steps)
    case Missing => !OwnMay(w, file, elements, steps)
    case Unknown => true
  }

  lemma HeritageAnswers(w: World, file: string, bases: seq<Base>, steps: seq<Step>, results: seq<PathLookup>)
    requires SoundBases(results, w, file, bases, steps)
    ensures Combine(results).Found? ==> HeritageMust(w, file, bases, steps)
    ensures Combine(results).Missing? ==> !HeritageMay(w, file, bases, steps)
  {
    if Combine(results).Found? {
      var i :| 0 <= i < |results| && results[i] == Found;
      assert bases[i] in bases && MustDecl(w, Resolve(w, file, bases[i].name).value, steps);
    }
    forall b | b in bases && Combine(results).Missing?
      ensures b.NamedBase? && Resolve(w, file, b.name).Some? && !MayDecl(w, Resolve(w, file, b.name).value, steps)
    {
      var i :| 0 <= i < |bases| && bases[i] == b;
      assert results[i] in results;
    }
  }

  /**
   With right answers from the heritage, the interface's answer is right exactly when its own
   members agree: a path found there is not declared otherwise here, and a path missing there is
   not admitted here.
   */
  lemma InterfaceAnswerRightIff(w: World, id: DeclId, steps: seq<Step>, seen: Seen, fuel: nat)
    requires id in w.decls && w.decls[id].Interface? && steps != [] && steps[0].Member?
    requires FindProperty(w.decls[id].elements, steps[0].name).None?
    requires fuel > 0 && (id, |steps|) !in seen
    requires var walks := LookupBases(w, id.file, w.decls[id].bases, steps, seen + {(id, |steps|)}, fuel - 1);
             walks.AllDone? && SoundBases(walks.results, w, id.file, w.decls[id].bases, steps)
    ensures var walks := LookupBases(w, id.file, w.decls[id].bases, steps, seen + {(id, |steps|)}, fuel - 1);
            var walk := LookupDecl(w, id, steps, seen, fuel);
            walk == Done(Combine(walks.results), walks.seen) &&
            (SoundForDecl(walk, w, id, steps) <==>
               OwnMembersAgree(Combine(walks.results), w, id.file, w.decls[id].elements, steps))
  {
    var elements, bases := w.decls[id].elements, w.decls[id].bases;
    var walks := LookupBases(w, id.file, bases, steps, seen + {(id, |steps|)}, fuel - 1);
    HeritageAnswers(w, id.file, bases, steps, walks.results);
    InterfaceRightIff(w, id, steps, seen, fuel);
  }

  /**
   Without heritage, the answer about a name no property signature is written like is right iff no
   member admits it.
   */
  lemma RootInterfaceRightIff(w: World, id: DeclId, name: string, seen: Seen, fuel: nat)
    requires id in w.decls && w.decls[id].Interface? && w.decls[id].bases == []
    requires FindProperty(w.decls[id].elements, name).None? && fuel > 0 && (id, 1) !in seen
    ensures var walk := LookupDecl(w, id, [Member(name)], seen, fuel);
            walk.Done? && walk.result.Missing? &&
            (SoundForDecl(walk, w, id, [Member(name)]) <==> ReadAsDeclared(w.decls[id].elements, name))
  {
    var elements := w.decls[id].elements;
    assert LookupBases(w, id.file, [], [Member(name)], seen + {(id, 1)}, fuel - 1) == AllDone([], seen + {(id, 1)});
    InterfaceAnswerRightIff(w, id, [Member(name)], seen, fuel);
    if m :| Declares(m, name) && m in elements {
      assert Admits(elements, m, name);
    } else if m :| m in elements && m.IndexSignature? {
      assert Admits(elements, m, name);
    }
  }

  // ---------------------------------------------------------------- quoted names

  /** A property signature's own key is answered rightly exactly when it is written without quotes. */
  lemma QuotedMemberRightIff(w: World, file: string, m: TypeElement, seen: Seen, fuel: nat)
    requires m.Property? && fuel > 0
    ensures var walk := LookupType(w, file, Literal([m]), [Member(m.key)], seen, fuel);
            walk.Done? &&
            (SoundForType(walk, w, file, Literal([m]), [Member(m.key)]) <==> m.text == m.key)
  {
    OneNameRightIff(w, file, [m], m.key, seen, fuel);
    FindPropertyIn([m], m.key);
    assert m in [m];
  }

  /** `interface C { 'foo-bar': string }`. */
  function QuotedWorld(id: DeclId): World {
    World(map[], map[id := Interface([Property("'foo-bar'", "foo-bar", Some(OtherType))], [])])
  }

  /** The declared key is reported missing, although it is certainly there. */
  lemma QuotedKeyReportedMissing(id: DeclId, fuel: nat)
    requires fuel > 0
    ensures var w := QuotedWorld(id);
            var walk := LookupDecl(w, id, [Member("foo-bar")], {}, fuel);
            walk.Done? && walk.result.Missing? && MustDecl(w, id, [Member("foo-bar")])
  {
    var w, steps := QuotedWorld(id), [Member("foo-bar")];
    var m := Property("'foo-bar'", "foo-bar", Some(OtherType));
    assert |m.text| != |m.key|;
    FindPropertyIn([m], "foo-bar");
    assert m in w.decls[id].elements && Declares(m, "foo-bar");
  }

  /** `{ [k: string]: T }` admits every key, and every key is reported missing. */
  lemma IndexSignatureReportedMissing(w: World, file: string, value: Type, name: string, seen: Seen, fuel: nat)
    requires fuel > 0
    ensures var t := Literal([IndexSignature(value)]);
            LookupType(w, file, t, [Member(name)], seen, fuel) == Done(Missing, seen) &&
                MayType(w, file, t, [Member(name)])
  {
    var elements := [IndexSignature(value)];
    FindPropertyIn(elements, name);
    assert IndexSignature(value) in elements;
  }

  // ---------------------------------------------------------------- type operators

  /** `keyof {}` is reported to miss a name, although nothing is known about its members. */
  lemma KeyofEmptyMisread(w: World, file: string, operator: TypeOperator, seen: Seen, fuel: nat)
    requires !operator.Readonly? && fuel >= 3
    ensures var t, steps := Operator(operator, Literal([])), [Member("a")];
            LookupType(w, file, t, steps, seen, fuel) == Done(Missing, seen) && MayType(w, file, t, steps)
  {
    assert LookupType(w, file, Literal([]), [Member("a")], seen, fuel - 1) == Done(Missing, seen);
  }

  /** The answers about every plain operand of an operator are right. */
  ghost predicate OperatorRead(w: World, operator: TypeOperator, fuel: nat) {
    forall file, operand, steps, seen :: PlainType(operand) ==>
      SoundForType(LookupType(w, file, Operator(operator, operand), steps, seen, fuel), w, file,
          Operator(operator, operand), steps)
  }

  /** The walk reads an operator as TypeScript does if and only if it is `readonly`. */
  lemma OperatorReadIff(w: World, operator: TypeOperator, fuel: nat)
    requires PlainWorld(w) && fuel >= 3
    ensures OperatorRead(w, operator, fuel) <==> operator.Readonly?
  {
    if operator.Readonly? {
      forall file, operand, steps, seen | PlainType(operand)
        ensures SoundForType(
                  LookupType(w, file, Operator(operator, operand), steps, seen, fuel), w, file,
                      Operator(operator, operand), steps)
      {
        TypeLookupSound(w, file, Operator(operator, operand), steps, seen, fuel);
      }
    } else {
      KeyofEmptyMisread(w, "", operator, {}, fuel);
      assert PlainType(Literal([]));
      assert !SoundForType(LookupType(w, "", Operator(operator, Literal([])), [Member("a")], {}, fuel), w, "",
                           Operator(operator, Literal([])), [Member("a")]);
    }
  }
}
