/**
 What the type declared for a configuration says about a key of its schema: present,
 missing, or not known. Declarations may refer to themselves.

 Parsing and name resolution are abstract: a world maps each type name visible in a file to
 its declaration. The walk carries fuel, one unit a call; `Exhausted` marks a walk cut short
 by it and stands for recursion that has not ended yet.
 */
module TypeLookup {
  import opened Outcomes

  /** One step of a key path: a named member, or a hop to the element of an array. */
  datatype Step = Member(name: string) | Element

  datatype PathLookup = Found | Missing | Unknown

  /** A declaration is identified by its file and its position there. */
  datatype DeclId = DeclId(file: string, pos: nat)

  datatype TypeOperator = Readonly | KeyOf | Unique

  /**
   A member of an interface or literal: a property signature with its name as written, quotes and
   all, and the key it declares; a method or accessor; an index signature, which admits every key;
   or a call or construct signature, which admits none.
   */
  datatype TypeElement =
    | Property(text: string, key: string, typ: Option<Type>)
    | OtherElement(key: string)
    | IndexSignature(value: Type)
    | CallSignature

  datatype Type =
    | Literal(elements: seq<TypeElement>)
    | Parenthesized(inner: Type)
    | Intersection(parts: seq<Type>)
    | Union(branches: seq<Type>)
    | ArrayOf(element: Type)
    | Operator(operator: TypeOperator, operand: Type)
    | Indexed(target: Type, key: Option<string>)
    | Reference(head: string, qualified: bool, arguments: seq<Type>)
    | OtherType

  /** A heritage entry: a plain identifier or another expression. */
  datatype Base = NamedBase(name: string) | OtherBase

  datatype Declaration =
    | Interface(elements: seq<TypeElement>, bases: seq<Base>)
    | Alias(typ: Type)
    | Enum

  datatype World = World(names: map<(string, string), DeclId>, decls: map<DeclId, Declaration>)

  /** The declaration a type name refers to, when it is within reach. */
  function Resolve(w: World, file: string, name: string): (id: Option<DeclId>)
    ensures id.Some? ==> id.value in w.decls
  {
    if (file, name) in w.names && w.names[(file, name)] in w.decls then Some(w.names[(file, name)]) else None
  }

  predicate Passthrough(name: string) {
    name == "Partial" || name == "Required" || name == "Readonly" || name == "NonNullable"
  }

  /** The member declares this key. */
  predicate Declares(m: TypeElement, key: string) {
    (m.Property? || m.OtherElement?) && m.key == key
  }

  /** The type behind a member, when it is written. */
  function Behind(m: TypeElement): Option<Type> {
    match m
    case Property(_, _, typ) => typ
    case IndexSignature(value) => Some(value)
    case _ => None
  }

  predicate ArrayName(name: string) {
    name == "Array" || name == "ReadonlyArray"
  }

  // ---------------------------------------------------------------- the walk

  /** What a walk leaves behind: its answer, and the (declaration, path length) pairs entered so far. */
  type Seen = set<(DeclId, nat)>

  datatype Walk = Exhausted | Done(result: PathLookup, seen: Seen)

  datatype Walks = AnyExhausted | AllDone(results: seq<PathLookup>, seen: Seen)

  /** One branch that has the path is enough; the path is missing only when every branch lacks it. */
  function Combine(results: seq<PathLookup>): PathLookup {
    if Found in results then Found else if Unknown in results then Unknown else Missing
  }

  /** A union has the path when all of its branches do, and lacks it when none has it. */
  function Agree(results: seq<PathLookup>): PathLookup {
    if forall r :: r in results ==> r == Found then Found
    else if forall r :: r in results ==> r == Missing then Missing
    else Unknown
  }

  /** The first property signature that is written like the name. */
  function FindProperty(elements: seq<TypeElement>, name: string): Option<TypeElement> {
    if elements == [] then None
    else if elements[0].Property? && elements[0].text == name then Some(elements[0])
    else FindProperty(elements[1..], name)
  }

  lemma {:induction false} FindPropertyIn(elements: seq<TypeElement>, name: string)
    ensures FindProperty(elements, name).Some? ==>
              var m := FindProperty(elements, name).value;
              m in elements && m.Property? && m.text == name
    ensures FindProperty(elements, name).None? ==> forall m :: m in elements && m.Property? ==> m.text != name
  {
    if elements != [] {
      FindPropertyIn(elements[1..], name);
    }
  }

  function LookupDecl(w: World, id: DeclId, steps: seq<Step>, seen: Seen, fuel: nat): Walk
    requires id in w.decls
    decreases fuel, 1, 0
  {
    if fuel == 0 then Exhausted
    else if steps == [] then Done(Found, seen)
    else if w.decls[id].Enum? then Done(Unknown, seen)
    else if (id, |steps|) in seen then Done(Unknown, seen)
    else
      var entered := seen + {(id, |steps|)};
      match w.decls[id]
      case Interface(elements, bases) =>
        if !steps[0].Member? then Done(Unknown, entered)
        else
          var direct := FindProperty(elements, steps[0].name);
          if direct.Some? then IntoProperty(w, id.file, direct.value, steps, entered, fuel - 1)
          else if bases == [] then Done(Missing, entered)
          else
            (match LookupBases(w, id.file, bases, steps, entered, fuel - 1)
             case AnyExhausted => Exhausted
             case AllDone(results, after) => Done(Combine(results), after))
      case Alias(typ) => LookupType(w, id.file, typ, steps, entered, fuel - 1)
      case Enum => Done(Unknown, entered)
  }

  /** Continue behind a property that the first step names. */
  function IntoProperty(w: World, file: string, m: TypeElement, steps: seq<Step>, seen: Seen, fuel: nat): Walk
    requires steps != []
    decreases fuel, 2, 0
  {
    if |steps| == 1 then Done(Found, seen)
    else if m.Property? && m.typ.Some? then LookupType(w, file, m.typ.value, steps[1..], seen, fuel)
    else Done(Unknown, seen)
  }

  function LookupBases(w: World, file: string, bases: seq<Base>, steps: seq<Step>, seen: Seen, fuel: nat): Walks
    decreases fuel, 2, |bases|
  {
    if bases == [] then AllDone([], seen)
    else
      match LookupBases(w, file, bases[..|bases| - 1], steps, seen, fuel)
      case AnyExhausted => AnyExhausted
      case AllDone(results, before) =>
        var last := bases[|bases| - 1];
        if last.OtherBase? || Resolve(w, file, last.name).None? then AllDone(results + [Unknown], before)
        else
          match LookupDecl(w, Resolve(w, file, last.name).value, steps, before, fuel)
          case Exhausted => AnyExhausted
          case Done(result, after) => AllDone(results + [result], after)
  }

  function LookupTypes(w: World, file: string, ts: seq<Type>, steps: seq<Step>, seen: Seen, fuel: nat): Walks
    decreases fuel, 2, |ts|
  {
    if ts == [] then AllDone([], seen)
    else
      match LookupTypes(w, file, ts[..|ts| - 1], steps, seen, fuel)
      case AnyExhausted => AnyExhausted
      case AllDone(results, before) =>
        match LookupType(w, file, ts[|ts| - 1], steps, before, fuel)
        case Exhausted => AnyExhausted
        case Done(result, after) => AllDone(results + [result], after)
  }

  function LookupType(w: World, file: string, t: Type, steps: seq<Step>, seen: Seen, fuel: nat): Walk
    decreases fuel, 1, 0
  {
    if fuel == 0 then Exhausted
    else if steps == [] then Done(Found, seen)
    else
      match t
      case Literal(elements) =>
        if !steps[0].Member? then Done(Unknown, seen)
        else
          var direct := FindProperty(elements, steps[0].name);
          if direct.Some? then IntoProperty(w, file, direct.value, steps, seen, fuel - 1) else Done(Missing, seen)
      case Parenthesized(inner) => LookupType(w, file, inner, steps, seen, fuel - 1)
      case Intersection(parts) =>
        (match LookupTypes(w, file, parts, steps, seen, fuel - 1)
         case AnyExhausted => Exhausted
         case AllDone(results, after) => Done(Combine(results), after))
      case Union(branches) =>
        (match LookupTypes(w, file, branches, steps, seen, fuel - 1)
         case AnyExhausted => Exhausted
         case AllDone(results, after) => Done(Agree(results), after))
      case ArrayOf(element) =>
        if steps[0].Element? then LookupType(w, file, element, steps[1..], seen, fuel - 1) else Done(Unknown, seen)
      case Operator(_, operand) => LookupType(w, file, operand, steps, seen, fuel - 1)
      case Indexed(target, key) =>
        if key.Some? then LookupType(w, file, target, [Member(key.value)] + steps, seen, fuel - 1)
        else Done(Unknown, seen)
      case Reference(head, qualified, arguments) =>
        if Passthrough(head) && arguments != [] then LookupType(w, file, arguments[0], steps, seen, fuel - 1)
        else if ArrayName(head) && arguments != [] then
          if steps[0].Element? then LookupType(w, file, arguments[0], steps[1..], seen, fuel - 1)
          else Done(Unknown, seen)
        else if qualified || Resolve(w, file, head).None? then Done(Unknown, seen)
        else LookupDecl(w, Resolve(w, file, head).value, steps, seen, fuel - 1)
      case OtherType => Done(Unknown, seen)
  }

  /** The wrappers that show the members of their argument, by name, and the two array types. */
  lemma BuiltInNames(
    w: World, file: string, name: string, arguments: seq<Type>, steps: seq<Step>, seen: Seen, fuel: nat)
    requires arguments != [] && steps != []
    ensures name in ["Partial", "Required", "Readonly", "NonNullable"] ==>
              LookupType(w, file, Reference(name, false, arguments), steps, seen, fuel + 1) ==
              LookupType(w, file, arguments[0], steps, seen, fuel)
    ensures name in ["Array", "ReadonlyArray"] ==>
              LookupType(w, file, Reference(name, false, arguments), steps, seen, fuel + 1) ==
              LookupType(w, file, ArrayOf(arguments[0]), steps, seen, fuel + 1)
    ensures name !in ["Partial", "Required", "Readonly", "NonNullable", "Array", "ReadonlyArray"] ==>
              LookupType(w, file, Reference(name, false, arguments), steps, seen, fuel + 1) ==
              LookupType(w, file, Reference(name, false, []), steps, seen, fuel + 1)
  {
    if name in ["Partial", "Required", "Readonly", "NonNullable"] {
      assert Passthrough(name);
    } else if name in ["Array", "ReadonlyArray"] {
      assert ArrayName(name);
    }
  }

  // ---------------------------------------------------------------- what a path's presence means

  /** The path is certainly there: the least reading of the declarations. */
  least predicate MustDecl(w: World, id: DeclId, steps: seq<Step>) {
    steps == [] ||
    (id in w.decls &&
     match w.decls[id]
     case Interface(elements, bases) =>
       if steps[0].Member? && exists m :: m in elements && Declares(m, steps[0].name) then
         exists m :: m in elements && Declares(m, steps[0].name) &&
           (|steps| == 1 || (Behind(m).Some? && MustType(w, id.file, Behind(m).value, steps[1..])))
       else
         exists b :: b in bases && b.NamedBase? && Resolve(w, id.file, b.name).Some? &&
           MustDecl(w, Resolve(w, id.file, b.name).value, steps)
     case Alias(typ) => MustType(w, id.file, typ, steps)
     case Enum => false)
  }

  least predicate MustType(w: World, file: string, t: Type, steps: seq<Step>) {
    steps == [] ||
    match t
    case Literal(elements) =>
      exists m :: m in elements && steps[0].Member? && Declares(m, steps[0].name) &&
        (|steps| == 1 || (Behind(m).Some? && MustType(w, file, Behind(m).value, steps[1..])))
    case Parenthesized(inner) => MustType(w, file, inner, steps)
    case Intersection(parts) => exists p :: p in parts && MustType(w, file, p, steps)
    case Union(branches) => forall b :: b in branches ==> MustType(w, file, b, steps)
    case ArrayOf(element) => steps[0].Element? && MustType(w, file, element, steps[1..])
    case Operator(operator, operand) => operator.Readonly? && MustType(w, file, operand, steps)
    case Indexed(target, key) => key.Some? && MustType(w, file, target, [Member(key.value)] + steps)
    case Reference(head, qualified, arguments) =>
      if qualified then false
      else if Passthrough(head) && arguments != [] then MustType(w, file, arguments[0], steps)
      else if ArrayName(head) && arguments != [] then steps[0].Element? && MustType(w, file, arguments[0], steps[1..])
      else Resolve(w, file, head).Some? && MustDecl(w, Resolve(w, file, head).value, steps)
    case OtherType => false
  }

  /** The path may be there: the greatest reading, in which what cannot be seen may hold anything. */
  greatest predicate MayDecl(w: World, id: DeclId, steps: seq<Step>) {
    steps == [] || id !in w.decls ||
    match w.decls[id]
    case Interface(elements, bases) =>
      if steps[0].Member? && exists m :: m in elements && Declares(m, steps[0].name) then
        exists m :: m in elements && Declares(m, steps[0].name) &&
          (|steps| == 1 || Behind(m).None? || MayType(w, id.file, Behind(m).value, steps[1..]))
      else
        || steps[0].Element?
        || (exists m ::
             m in elements && m.IndexSignature? && (|steps| == 1 || MayType(w, id.file, m.value, steps[1..])))
        || exists b :: b in bases && (b.OtherBase? || Resolve(w, id.file, b.name).None? ||
             MayDecl(w, Resolve(w, id.file, b.name).value, steps))
    case Alias(typ) => MayType(w, id.file, typ, steps)
    case Enum => true
  }

  greatest predicate MayType(w: World, file: string, t: Type, steps: seq<Step>) {
    steps == [] ||
    match t
    case Literal(elements) =>
      if steps[0].Member? && exists m :: m in elements && Declares(m, steps[0].name) then
        exists m :: m in elements && Declares(m, steps[0].name) &&
          (|steps| == 1 || Behind(m).None? || MayType(w, file, Behind(m).value, steps[1..]))
      else
        || steps[0].Element?
        || exists m :: m in elements && m.IndexSignature? && (|steps| == 1 || MayType(w, file, m.value, steps[1..]))
    case Parenthesized(inner) => MayType(w, file, inner, steps)
    case Intersection(parts) => exists p :: p in parts && MayType(w, file, p, steps)
    case Union(branches) => exists b :: b in branches && MayType(w, file, b, steps)
    case ArrayOf(element) => steps[0].Member? || MayType(w, file, element, steps[1..])
    case Operator(operator, operand) => !operator.Readonly? || MayType(w, file, operand, steps)
    case Indexed(target, key) => key.None? || MayType(w, file, target, [Member(key.value)] + steps)
    case Reference(head, qualified, arguments) =>
      if qualified then true
      else if Passthrough(head) && arguments != [] then MayType(w, file, arguments[0], steps)
      else if ArrayName(head) && arguments != [] then steps[0].Member? || MayType(w, file, arguments[0], steps[1..])
      else Resolve(w, file, head).None? || MayDecl(w, Resolve(w, file, head).value, steps)
    case OtherType => true
  }

  // ---------------------------------------------------------------- soundness

  /** Members are property signatures of distinct keys, written without quotes. */
  predicate PlainElements(elements: seq<TypeElement>) {
    && (forall m :: m in elements ==> m.Property? && m.text == m.key && (m.typ.Some? ==> PlainType(m.typ.value)))
    && (forall i, j :: 0 <= i < j < |elements| ==> elements[i].key != elements[j].key)
  }

  /** The types the walk reads as TypeScript does: `readonly` only, and the built-in names unqualified. */
  predicate PlainType(t: Type) {
    match t
    case Literal(elements) => PlainElements(elements)
    case Parenthesized(inner) => PlainType(inner)
    case Intersection(parts) => forall p :: p in parts ==> PlainType(p)
    case Union(branches) => branches != [] && forall b :: b in branches ==> PlainType(b)
    case ArrayOf(element) => PlainType(element)
    case Operator(operator, operand) => operator.Readonly? && PlainType(operand)
    case Indexed(target, _) => PlainType(target)
    case Reference(head, qualified, arguments) =>
      && (qualified ==> !Passthrough(head) && !ArrayName(head))
      && forall a :: a in arguments ==> PlainType(a)
    case OtherType => true
  }

  predicate PlainDecl(d: Declaration) {
    match d
    case Interface(elements, _) => PlainElements(elements)
    case Alias(typ) => PlainType(typ)
    case Enum => true
  }

  predicate PlainWorld(w: World) {
    forall id :: id in w.decls ==> PlainDecl(w.decls[id])
  }

  ghost predicate SoundForDecl(walk: Walk, w: World, id: DeclId, steps: seq<Step>) {
    walk.Done? ==> (walk.result.Found? ==> MustDecl(w, id, steps)) && (walk.result.Missing? ==> !MayDecl(w, id, steps))
  }

  ghost predicate SoundForType(walk: Walk, w: World, file: string, t: Type, steps: seq<Step>) {
    walk.Done? ==>
      (walk.result.Found? ==> MustType(w, file, t, steps)) && (walk.result.Missing? ==> !MayType(w, file, t, steps))
  }

  /** Each answer is sound for its type. */
  ghost predicate SoundEach(results: seq<PathLookup>, w: World, file: string, ts: seq<Type>, steps: seq<Step>) {
    && |results| == |ts|
    && forall i :: 0 <= i < |ts| ==>
         && (results[i].Found? ==> MustType(w, file, ts[i], steps))
         && (results[i].Missing? ==> !MayType(w, file, ts[i], steps))
  }

  lemma UnionSound(w: World, file: string, branches: seq<Type>, steps: seq<Step>, results: seq<PathLookup>)
    requires steps != [] && SoundEach(results, w, file, branches, steps)
    ensures Agree(results).Found? ==> MustType(w, file, Union(branches), steps)
    ensures Agree(results).Missing? ==> !MayType(w, file, Union(branches), steps)
  {
    forall b | b in branches
      ensures Agree(results).Found? ==> MustType(w, file, b, steps)
      ensures Agree(results).Missing? ==> !MayType(w, file, b, steps)
    {
      var i :| 0 <= i < |branches| && branches[i] == b;
      assert results[i] in results;
    }
  }

  lemma IntersectionSound(w: World, file: string, parts: seq<Type>, steps: seq<Step>, results: seq<PathLookup>)
    requires steps != [] && SoundEach(results, w, file, parts, steps)
    ensures Combine(results).Found? ==> MustType(w, file, Intersection(parts), steps)
    ensures Combine(results).Missing? ==> !MayType(w, file, Intersection(parts), steps)
  {
    if Combine(results).Found? {
      var i :| 0 <= i < |results| && results[i] == Found;
      assert parts[i] in parts && MustType(w, file, parts[i], steps);
    }
    forall p | p in parts && Combine(results).Missing? ensures !MayType(w, file, p, steps) {
      var i :| 0 <= i < |parts| && parts[i] == p;
      assert results[i] in results;
    }
  }

  /** Each answer is sound for the declaration its heritage entry names. */
  ghost predicate SoundBases(results: seq<PathLookup>, w: World, file: string, bases: seq<Base>, steps: seq<Step>) {
    && |results| == |bases|
    && forall i :: 0 <= i < |bases| ==> SoundBase(results[i], w, file, bases[i], steps)
  }

  ghost predicate SoundBase(result: PathLookup, w: World, file: string, base: Base, steps: seq<Step>) {
    if base.OtherBase? || Resolve(w, file, base.name).None? then result.Unknown?
    else
      && (result.Found? ==> MustDecl(w, Resolve(w, file, base.name).value, steps))
      && (result.Missing? ==> !MayDecl(w, Resolve(w, file, base.name).value, steps))
  }

  lemma HeritageSound(w: World, id: DeclId, steps: seq<Step>, results: seq<PathLookup>)
    requires id in w.decls && w.decls[id].Interface? && steps != [] && steps[0].Member?
    requires forall m :: m in w.decls[id].elements ==> m.Property? && m.key != steps[0].name
    requires SoundBases(results, w, id.file, w.decls[id].bases, steps)
    ensures Combine(results).Found? ==> MustDecl(w, id, steps)
    ensures Combine(results).Missing? ==> !MayDecl(w, id, steps)
  {
    var bases := w.decls[id].bases;
    if Combine(results).Found? {
      var i :| 0 <= i < |results| && results[i] == Found;
      assert bases[i] in bases && MustDecl(w, Resolve(w, id.file, bases[i].name).value, steps);
    }
    forall b | b in bases && Combine(results).Missing?
      ensures b.NamedBase? && Resolve(w, id.file, b.name).Some? && !MayDecl(w, Resolve(w, id.file, b.name).value, steps)
    {
      var i :| 0 <= i < |bases| && bases[i] == b;
      assert results[i] in results;
    }
  }

  /** An answer about the only member of a name. */
  ghost predicate SoundMember(walk: Walk, w: World, file: string, m: TypeElement, steps: seq<Step>)
    requires steps != [] && m.Property?
  {
    walk.Done? ==>
      if |steps| == 1 then walk.result.Found?
      else if m.typ.None? then walk.result.Unknown?
      else
        && (walk.result.Found? ==> MustType(w, file, m.typ.value, steps[1..]))
        && (walk.result.Missing? ==> !MayType(w, file, m.typ.value, steps[1..]))
  }

  lemma InterfaceMemberSound(w: World, id: DeclId, steps: seq<Step>, walk: Walk, m: TypeElement)
    requires id in w.decls && w.decls[id].Interface? && steps != [] && steps[0].Member?
    requires m in w.decls[id].elements && m.Property? && m.key == steps[0].name
    requires forall other :: other in w.decls[id].elements && Declares(other, steps[0].name) ==> other == m
    requires SoundMember(walk, w, id.file, m, steps)
    ensures SoundForDecl(walk, w, id, steps)
  {
    if walk.Done? && walk.result.Missing? {
      assert !MayType(w, id.file, m.typ.value, steps[1..]);
    }
  }

  lemma LiteralMemberSound(
    w: World, file: string, elements: seq<TypeElement>, steps: seq<Step>, walk: Walk, m: TypeElement)
    requires steps != [] && steps[0].Member?
    requires m in elements && m.Property? && m.key == steps[0].name
    requires forall other :: other in elements && Declares(other, steps[0].name) ==> other == m
    requires SoundMember(walk, w, file, m, steps)
    ensures SoundForType(walk, w, file, Literal(elements), steps)
  {
    if walk.Done? && walk.result.Missing? {
      assert !MayType(w, file, m.typ.value, steps[1..]);
    }
  }

  lemma OnlyMember(elements: seq<TypeElement>, name: string) returns (m: TypeElement)
    requires PlainElements(elements) && FindProperty(elements, name).Some?
    ensures FindProperty(elements, name) == Some(m)
    ensures m in elements && m.Property? && m.key == name && (m.typ.Some? ==> PlainType(m.typ.value))
    ensures forall other :: other in elements && Declares(other, name) ==> other == m
  {
    FindPropertyIn(elements, name);
    m := FindProperty(elements, name).value;
  }

  lemma {:induction false} MemberLookupSound(
    w: World, file: string, m: TypeElement, steps: seq<Step>, seen: Seen, fuel: nat)
    requires PlainWorld(w) && steps != [] && m.Property? && (m.typ.Some? ==> PlainType(m.typ.value))
    ensures SoundMember(IntoProperty(w, file, m, steps, seen, fuel), w, file, m, steps)
    decreases fuel, 2, 0
  {
    if |steps| > 1 && m.typ.Some? {
      TypeLookupSound(w, file, m.typ.value, steps[1..], seen, fuel);
    }
  }

  /**
   Three-valued soundness on a declaration: whatever was entered before, `Found` means the
   path is present on every union branch, and `Missing` that it is present on none.
   */
  lemma {:induction false} DeclLookupSound(w: World, id: DeclId, steps: seq<Step>, seen: Seen, fuel: nat)
    requires PlainWorld(w) && id in w.decls
    ensures SoundForDecl(LookupDecl(w, id, steps, seen, fuel), w, id, steps)
    decreases fuel, 1, 0
  {
    if fuel > 0 && steps != [] && !w.decls[id].Enum? && (id, |steps|) !in seen {
      var entered := seen + {(id, |steps|)};
      match w.decls[id]
      case Interface(elements, bases) =>
        if steps[0].Member? {
          FindPropertyIn(elements, steps[0].name);
          if FindProperty(elements, steps[0].name).Some? {
            var m := OnlyMember(elements, steps[0].name);
            MemberLookupSound(w, id.file, m, steps, entered, fuel - 1);
            InterfaceMemberSound(w, id, steps, IntoProperty(w, id.file, m, steps, entered, fuel - 1), m);
          } else {
            BaseLookupsSound(w, id.file, bases, steps, entered, fuel - 1);
            var walks := LookupBases(w, id.file, bases, steps, entered, fuel - 1);
            if walks.AllDone? {
              HeritageSound(w, id, steps, walks.results);
            }
          }
        }
      case Alias(typ) =>
        TypeLookupSound(w, id.file, typ, steps, entered, fuel - 1);
    }
  }

  lemma {:induction false} BaseLookupsSound(
    w: World, file: string, bases: seq<Base>, steps: seq<Step>, seen: Seen, fuel: nat)
    requires PlainWorld(w)
    ensures var walks := LookupBases(w, file, bases, steps, seen, fuel);
            walks.AllDone? ==> SoundBases(walks.results, w, file, bases, steps)
    decreases fuel, 2, |bases|
  {
    if bases != [] {
      var n := |bases| - 1;
      BaseLookupsSound(w, file, bases[..n], steps, seen, fuel);
      var front := LookupBases(w, file, bases[..n], steps, seen, fuel);
      if front.AllDone? && bases[n].NamedBase? && Resolve(w, file, bases[n].name).Some? {
        DeclLookupSound(w, Resolve(w, file, bases[n].name).value, steps, front.seen, fuel);
      }
      var walks := LookupBases(w, file, bases, steps, seen, fuel);
      if walks.AllDone? {
        OneMoreBase(front.results, walks.results, w, file, bases, steps);
      }
    }
  }

  lemma OneMoreBase(
    front: seq<PathLookup>, results: seq<PathLookup>, w: World, file: string, bases: seq<Base>, steps: seq<Step>)
    requires bases != [] && |results| == |front| + 1 && results[..|front|] == front
    requires SoundBases(front, w, file, bases[..|bases| - 1], steps)
    requires SoundBase(results[|front|], w, file, bases[|bases| - 1], steps)
    ensures SoundBases(results, w, file, bases, steps)
  {
    forall i | 0 <= i < |bases| ensures SoundBase(results[i], w, file, bases[i], steps) {
      if i < |front| {
        assert results[i] == front[i] && bases[..|bases| - 1][i] == bases[i];
      }
    }
  }

  lemma {:induction false} TypeLookupsSound(
    w: World, file: string, ts: seq<Type>, steps: seq<Step>, seen: Seen, fuel: nat)
    requires PlainWorld(w) && forall t :: t in ts ==> PlainType(t)
    ensures var walks := LookupTypes(w, file, ts, steps, seen, fuel);
            walks.AllDone? ==> SoundEach(walks.results, w, file, ts, steps)
    decreases fuel, 2, |ts|
  {
    if ts != [] {
      var n := |ts| - 1;
      TypeLookupsSound(w, file, ts[..n], steps, seen, fuel);
      var front := LookupTypes(w, file, ts[..n], steps, seen, fuel);
      if front.AllDone? {
        TypeLookupSound(w, file, ts[n], steps, front.seen, fuel);
      }
    }
  }

  lemma {:induction false} TypeLookupSound(w: World, file: string, t: Type, steps: seq<Step>, seen: Seen, fuel: nat)
    requires PlainWorld(w) && PlainType(t)
    ensures SoundForType(LookupType(w, file, t, steps, seen, fuel), w, file, t, steps)
    decreases fuel, 1, 0
  {
    if fuel > 0 && steps != [] {
      match t
      case Literal(elements) =>
        if steps[0].Member? {
          FindPropertyIn(elements, steps[0].name);
          if FindProperty(elements, steps[0].name).Some? {
            var m := OnlyMember(elements, steps[0].name);
            MemberLookupSound(w, file, m, steps, seen, fuel - 1);
            LiteralMemberSound(w, file, elements, steps, IntoProperty(w, file, m, steps, seen, fuel - 1), m);
          }
        }
      case Parenthesized(inner) =>
        TypeLookupSound(w, file, inner, steps, seen, fuel - 1);
      case Intersection(parts) =>
        TypeLookupsSound(w, file, parts, steps, seen, fuel - 1);
        var walks := LookupTypes(w, file, parts, steps, seen, fuel - 1);
        if walks.AllDone? {
          IntersectionSound(w, file, parts, steps, walks.results);
        }
      case Union(branches) =>
        TypeLookupsSound(w, file, branches, steps, seen, fuel - 1);
        var walks := LookupTypes(w, file, branches, steps, seen, fuel - 1);
        if walks.AllDone? {
          UnionSound(w, file, branches, steps, walks.results);
        }
      case ArrayOf(element) =>
        TypeLookupSound(w, file, element, steps[1..], seen, fuel - 1);
      case Operator(_, operand) =>
        TypeLookupSound(w, file, operand, steps, seen, fuel - 1);
      case Indexed(target, key) =>
        if key.Some? {
          TypeLookupSound(w, file, target, [Member(key.value)] + steps, seen, fuel - 1);
        }
      case Reference(head, qualified, arguments) =>
        ReferenceLookupSound(w, file, t, steps, seen, fuel);
      case OtherType =>
    }
  }

  lemma {:induction false} ReferenceLookupSound(
    w: World, file: string, t: Type, steps: seq<Step>, seen: Seen, fuel: nat)
    requires PlainWorld(w) && PlainType(t) && t.Reference? && fuel > 0 && steps != []
    ensures SoundForType(LookupType(w, file, t, steps, seen, fuel), w, file, t, steps)
    decreases fuel, 0, 0
  {
    var head, arguments := t.head, t.arguments;
    if Passthrough(head) && arguments != [] {
      assert arguments[0] in arguments;
      TypeLookupSound(w, file, arguments[0], steps, seen, fuel - 1);
    } else if ArrayName(head) && arguments != [] {
      assert arguments[0] in arguments;
      TypeLookupSound(w, file, arguments[0], steps[1..], seen, fuel - 1);
    } else if !t.qualified && Resolve(w, file, head).Some? {
      DeclLookupSound(w, Resolve(w, file, head).value, steps, seen, fuel - 1);
    }
  }

  // ---------------------------------------------------------------- completeness on structural types

  /** No declaration is entered: every reference is a built-in wrapper or out of reach. */
  predicate Structural(w: World, file: string, t: Type) {
    match t
    case Literal(elements) => forall m :: m in elements && m.Property? && m.typ.Some? ==>
        Structural(w, file, m.typ.value)
    case Parenthesized(inner) => Structural(w, file, inner)
    case Intersection(parts) => forall p :: p in parts ==> Structural(w, file, p)
    case Union(branches) => forall b :: b in branches ==> Structural(w, file, b)
    case ArrayOf(element) => Structural(w, file, element)
    case Operator(_, operand) => Structural(w, file, operand)
    case Indexed(target, _) => Structural(w, file, target)
    case Reference(head, qualified, arguments) =>
      if (Passthrough(head) || ArrayName(head)) && arguments != [] then Structural(w, file, arguments[0])
      else qualified || Resolve(w, file, head).None?
    case OtherType => true
  }

  /** The answer is definite exactly when the path's presence is. */
  ghost predicate ExactForType(walk: Walk, w: World, file: string, t: Type, steps: seq<Step>) {
    walk.Done? ==>
      && (walk.result.Found? <==> MustType(w, file, t, steps))
      && (walk.result.Missing? <==> !MayType(w, file, t, steps))
  }

  ghost predicate ExactEach(results: seq<PathLookup>, w: World, file: string, ts: seq<Type>, steps: seq<Step>) {
    && |results| == |ts|
    && forall i :: 0 <= i < |ts| ==>
         && (results[i].Found? <==> MustType(w, file, ts[i], steps))
         && (results[i].Missing? <==> !MayType(w, file, ts[i], steps))
  }

  lemma UnionExact(w: World, file: string, branches: seq<Type>, steps: seq<Step>, results: seq<PathLookup>)
    requires steps != [] && branches != [] && ExactEach(results, w, file, branches, steps)
    ensures Agree(results).Found? <==> MustType(w, file, Union(branches), steps)
    ensures Agree(results).Missing? <==> !MayType(w, file, Union(branches), steps)
  {
    UnionSound(w, file, branches, steps, results);
    if MustType(w, file, Union(branches), steps) {
      forall r | r in results ensures r.Found? {
        var i :| 0 <= i < |results| && results[i] == r;
        assert branches[i] in branches;
      }
    }
    if !MayType(w, file, Union(branches), steps) {
      forall r | r in results ensures r.Missing? {
        var i :| 0 <= i < |results| && results[i] == r;
        assert branches[i] in branches;
      }
      assert results[0] in results;
    }
  }

  lemma IntersectionExact(w: World, file: string, parts: seq<Type>, steps: seq<Step>, results: seq<PathLookup>)
    requires steps != [] && ExactEach(results, w, file, parts, steps)
    ensures Combine(results).Found? <==> MustType(w, file, Intersection(parts), steps)
    ensures Combine(results).Missing? <==> !MayType(w, file, Intersection(parts), steps)
  {
    IntersectionSound(w, file, parts, steps, results);
    if MustType(w, file, Intersection(parts), steps) {
      var p :| p in parts && MustType(w, file, p, steps);
      var i :| 0 <= i < |parts| && parts[i] == p;
      assert results[i] in results;
    }
    if !MayType(w, file, Intersection(parts), steps) {
      forall r | r in results ensures r.Missing? {
        var i :| 0 <= i < |results| && results[i] == r;
        assert parts[i] in parts;
      }
    }
  }

  lemma {:induction false} TypeLookupsExact(
    w: World, file: string, ts: seq<Type>, steps: seq<Step>, seen: Seen, fuel: nat)
    requires forall t :: t in ts ==> PlainType(t) && Structural(w, file, t)
    ensures var walks := LookupTypes(w, file, ts, steps, seen, fuel);
            walks.AllDone? ==> ExactEach(walks.results, w, file, ts, steps)
    decreases fuel, 2, |ts|
  {
    if ts != [] {
      var n := |ts| - 1;
      TypeLookupsExact(w, file, ts[..n], steps, seen, fuel);
      var front := LookupTypes(w, file, ts[..n], steps, seen, fuel);
      if front.AllDone? {
        TypeLookupExact(w, file, ts[n], steps, front.seen, fuel);
      }
    }
  }

  /**
   On a type that enters no declaration the answer loses nothing: it is `Found` exactly when
   the path is present on every branch, and `Missing` exactly when it is present on none.
   */
  lemma {:induction false} TypeLookupExact(w: World, file: string, t: Type, steps: seq<Step>, seen: Seen, fuel: nat)
    requires PlainType(t) && Structural(w, file, t)
    ensures ExactForType(LookupType(w, file, t, steps, seen, fuel), w, file, t, steps)
    decreases fuel, 1, 0
  {
    if fuel > 0 && steps != [] {
      match t
      case Literal(elements) =>
        if steps[0].Member? {
          FindPropertyIn(elements, steps[0].name);
          if FindProperty(elements, steps[0].name).Some? {
            var m := OnlyMember(elements, steps[0].name);
            var behind := IntoProperty(w, file, m, steps, seen, fuel - 1);
            if |steps| > 1 && m.typ.Some? {
              TypeLookupExact(w, file, m.typ.value, steps[1..], seen, fuel - 1);
              assert behind == LookupType(w, file, m.typ.value, steps[1..], seen, fuel - 1);
            }
            LiteralMemberExact(w, file, elements, steps, behind, m);
          }
        }
      case Parenthesized(inner) =>
        TypeLookupExact(w, file, inner, steps, seen, fuel - 1);
      case Intersection(parts) =>
        TypeLookupsExact(w, file, parts, steps, seen, fuel - 1);
        var walks := LookupTypes(w, file, parts, steps, seen, fuel - 1);
        if walks.AllDone? {
          IntersectionExact(w, file, parts, steps, walks.results);
        }
      case Union(branches) =>
        TypeLookupsExact(w, file, branches, steps, seen, fuel - 1);
        var walks := LookupTypes(w, file, branches, steps, seen, fuel - 1);
        if walks.AllDone? {
          UnionExact(w, file, branches, steps, walks.results);
        }
      case ArrayOf(element) =>
        TypeLookupExact(w, file, element, steps[1..], seen, fuel - 1);
      case Operator(_, operand) =>
        TypeLookupExact(w, file, operand, steps, seen, fuel - 1);
      case Indexed(target, key) =>
        if key.Some? {
          TypeLookupExact(w, file, target, [Member(key.value)] + steps, seen, fuel - 1);
        }
      case Reference(head, qualified, arguments) =>
        if (Passthrough(head) || ArrayName(head)) && arguments != [] {
          assert arguments[0] in arguments;
          TypeLookupExact(w, file, arguments[0], if ArrayName(head) then steps[1..] else steps, seen, fuel - 1);
        }
      case OtherType =>
    }
  }

  lemma LiteralMemberExact(
    w: World, file: string, elements: seq<TypeElement>, steps: seq<Step>, walk: Walk, m: TypeElement)
    requires steps != [] && steps[0].Member?
    requires m in elements && m.Property? && m.key == steps[0].name
    requires forall other :: other in elements && Declares(other, steps[0].name) ==> other == m
    requires walk.Done? ==>
               if |steps| == 1 then walk.result.Found?
               else if m.typ.None? then walk.result.Unknown?
               else
                 && (walk.result.Found? <==> MustType(w, file, m.typ.value, steps[1..]))
                 && (walk.result.Missing? <==> !MayType(w, file, m.typ.value, steps[1..]))
    ensures ExactForType(walk, w, file, Literal(elements), steps)
  {
    if walk.Done? && |steps| > 1 && m.typ.Some? {
      assert MustType(w, file, Literal(elements), steps) <==> MustType(w, file, m.typ.value, steps[1..]);
      assert MayType(w, file, Literal(elements), steps) <==> MayType(w, file, m.typ.value, steps[1..]);
    }
  }
}
