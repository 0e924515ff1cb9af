/**
 The static walk of a configuration schema: which key paths it collects, and what the presence
 check of those paths against the declared type then says about the schema.
 */
module SchemaWalk {
  import opened TypeLookup
  import opened KeyPaths
  import opened Sorting
  import opened TypeMisreadings
  import opened TypeExactness

  /** A name for a schema, in the file that uses it. */
  datatype Alias = Alias(file: string, name: string)

  /** The schema that each name stands for, where it names a constant or a named value import. */
  type Aliases = map<Alias, Schema>

  /** A schema expression, as the walk sees it. */
  datatype Schema =
    | ObjectOf(properties: seq<SchemaProperty>)
    | ArraySchema(element: Schema)
    | IntersectOf(parts: seq<Part>)
    | UnionOf(parts: seq<Part>)
    | Refined(base: Schema)
    | OtherCall
    | Named(alias: Alias)
    | NotACall

  /** A `key: schema` entry, a shorthand entry, or one that is not a plain key. */
  datatype SchemaProperty = Assigned(key: string, value: Schema) | Shorthand(key: string) | Unplain(text: string)

  /** An element of an intersection or union: another package's `Config`, a schema call, or anything else. */
  datatype Part = Composed(specifier: string) | Inline(schema: Schema) | OtherPart

  datatype Violation =
    | NotAPlainKey(text: string)
    | NotAnIntersectElement
    | NotAUnionElement
    | CyclicAlias(alias: Alias)
    | UnknownAlias(alias: Alias)
    | NoBaseCall
    | NotWalkable

  predicate IsCall(schema: Schema) {
    !schema.Named? && !schema.NotACall?
  }

  // ---------------------------------------------------------------- what a schema declares

  /** `steps` is a member path inside a value of this schema: objects give members, arrays give hops. */
  predicate InValue(value: Schema, steps: seq<Step>)
    decreases value
  {
    steps != [] &&
    match value
    case ObjectOf(properties) =>
      exists i :: 0 <= i < |properties| && properties[i].Assigned? && steps[0] == Member(properties[i].key) &&
        (|steps| == 1 || InValue(properties[i].value, steps[1..]))
    case ArraySchema(element) => steps[0].Element? && InValue(element, steps[1..])
    case Refined(base) => InValue(base, steps)
    case _ => false
  }

  /** `steps` is a member path of the configuration as a whole, through names up to `depth` deep. */
  predicate InSchemaWithin(env: Aliases, schema: Schema, steps: seq<Step>, depth: nat)
    decreases depth, schema
  {
    steps != [] &&
    match schema
    case ObjectOf(properties) => exists i :: 0 <= i < |properties| && InProperty(properties[i], steps)
    case IntersectOf(parts) =>
      exists i :: 0 <= i < |parts| && parts[i].Inline? && InSchemaWithin(env, parts[i].schema, steps, depth)
    case UnionOf(parts) =>
      exists i :: 0 <= i < |parts| && parts[i].Inline? && InSchemaWithin(env, parts[i].schema, steps, depth)
    case Refined(base) => IsCall(base) && InSchemaWithin(env, base, steps, depth)
    case Named(a) => depth > 0 && a in env && InSchemaWithin(env, env[a], steps, depth - 1)
    case _ => false
  }

  /** `steps` is a member path of the configuration as a whole; names may stand for schemas that use them again. */
  ghost predicate InSchema(env: Aliases, schema: Schema, steps: seq<Step>) {
    exists depth: nat :: InSchemaWithin(env, schema, steps, depth)
  }

  lemma SmallerRest(env: Aliases, aliases: set<Alias>, a: Alias)
    requires a in env && a !in aliases
    ensures |env.Keys - (aliases + {a})| < |env.Keys - aliases|
  {
    assert env.Keys - aliases == (env.Keys - (aliases + {a})) + {a};
  }

  /** The same without going through one of `aliases`, or through any name twice. */
  predicate InFresh(env: Aliases, schema: Schema, aliases: set<Alias>, steps: seq<Step>)
    decreases |env.Keys - aliases|, schema
  {
    steps != [] &&
    match schema
    case ObjectOf(properties) => exists i :: 0 <= i < |properties| && InProperty(properties[i], steps)
    case IntersectOf(parts) =>
      exists i :: 0 <= i < |parts| && parts[i].Inline? && InFresh(env, parts[i].schema, aliases, steps)
    case UnionOf(parts) =>
      exists i :: 0 <= i < |parts| && parts[i].Inline? && InFresh(env, parts[i].schema, aliases, steps)
    case Refined(base) => IsCall(base) && InFresh(env, base, aliases, steps)
    case Named(a) =>
      a in env && a !in aliases &&
      (SmallerRest(env, aliases, a); InFresh(env, env[a], aliases + {a}, steps))
    case _ => false
  }

  predicate InProperty(p: SchemaProperty, steps: seq<Step>)
    requires steps != []
  {
    && !p.Unplain?
    && steps[0] == Member(p.key)
    && (|steps| == 1 || (p.Assigned? && InValue(p.value, steps[1..])))
  }

  // ---------------------------------------------------------------- the walk as functions

  /** The nested paths of one property's value, each printed behind `base`. */
  function ValuePaths(value: Schema, base: string): seq<string>
    decreases value, 1, 0
  {
    match value
    case ObjectOf(properties) => PropertyPaths(value, |properties|, base)
    case ArraySchema(element) => ValuePaths(element, base + "[]")
    case Refined(inner) => ValuePaths(inner, base)
    case _ => []
  }

  /** The paths of the first `n` properties of an object below `base`. */
  function PropertyPaths(value: Schema, n: nat, base: string): seq<string>
    requires value.ObjectOf? && n <= |value.properties|
    decreases value, 0, n
  {
    if n == 0 then []
    else
      var p := value.properties[n - 1];
      PropertyPaths(value, n - 1, base) +
      if p.Assigned? then [base + "." + p.key] + ValuePaths(p.value, base + "." + p.key) else []
  }

  datatype Collected = Collected(keys: seq<string>, composes: seq<string>, violations: seq<Violation>)

  const NOTHING := Collected([], [], [])

  function Both(x: Collected, y: Collected): Collected {
    Collected(x.keys + y.keys, x.composes + y.composes, x.violations + y.violations)
  }

  function Violated(v: Violation): Collected {
    Collected([], [], [v])
  }

  function TopProperty(p: SchemaProperty): Collected {
    match p
    case Assigned(key, value) => Collected([key] + ValuePaths(value, key), [], [])
    case Shorthand(key) => Collected([key], [], [])
    case Unplain(text) => Violated(NotAPlainKey(text))
  }

  function TopProperties(properties: seq<SchemaProperty>): Collected {
    if properties == [] then NOTHING
    else Both(TopProperties(properties[..|properties| - 1]), TopProperty(properties[|properties| - 1]))
  }

  /** The visit of a schema expression inside the names of `aliases`. */
  function Visited(env: Aliases, schema: Schema, aliases: set<Alias>): Collected
    decreases |env.Keys - aliases|, schema, 1, 0
  {
    match schema
    case ObjectOf(properties) => TopProperties(properties)
    case IntersectOf(parts) => PartsVisited(env, schema, |parts|, aliases)
    case UnionOf(parts) => PartsVisited(env, schema, |parts|, aliases)
    case Refined(base) => if IsCall(base) then Visited(env, base, aliases) else Violated(NoBaseCall)
    case ArraySchema(_) => Violated(NoBaseCall)
    case OtherCall => Violated(NoBaseCall)
    case Named(a) =>
      if a in aliases then Violated(CyclicAlias(a))
      else if a !in env then Violated(UnknownAlias(a))
      else
        SmallerRest(env, aliases, a);
        Visited(env, env[a], aliases + {a})
    case NotACall => Violated(NotWalkable)
  }

  /** The first `n` elements of an intersection or union. */
  function PartsVisited(env: Aliases, schema: Schema, n: nat, aliases: set<Alias>): Collected
    requires (schema.IntersectOf? || schema.UnionOf?) && n <= |schema.parts|
    decreases |env.Keys - aliases|, schema, 0, n
  {
    if n == 0 then NOTHING
    else
      var here :=
        match schema.parts[n - 1]
        case Inline(inner) => Visited(env, inner, aliases)
        case Composed(specifier) =>
          if schema.IntersectOf? then Collected([], [specifier], []) else Violated(NotAUnionElement)
        case OtherPart => Violated(if schema.IntersectOf? then NotAnIntersectElement else NotAUnionElement);
      Both(PartsVisited(env, schema, n - 1, aliases), here)
  }

  // ---------------------------------------------------------------- the walk itself

  /** The walk pushes to three lists as it goes. */
  class SchemaWalker {
    var keys: seq<string>
    var composes: seq<string>
    var violations: seq<Violation>
    const env: Aliases

    constructor (env: Aliases)
      ensures this.env == env && Found() == NOTHING
    {
      this.env := env;
      keys, composes, violations := [], [], [];
    }

    function Found(): Collected
      reads this
    {
      Collected(keys, composes, violations)
    }

    method CollectValuePaths(value: Schema, base: string)
      modifies this
      ensures keys == old(keys) + ValuePaths(value, base)
      ensures composes == old(composes) && violations == old(violations)
      decreases value
    {
      match value {
        case ObjectOf(properties) =>
          for n := 0 to |properties|
            invariant keys == old(keys) + PropertyPaths(value, n, base)
            invariant composes == old(composes) && violations == old(violations)
          {
            var p := properties[n];
            if p.Assigned? {
              ghost var before := keys;
              var path := base + "." + p.key;
              keys := keys + [path];
              CollectValuePaths(p.value, path);
              assert keys == before + ([path] + ValuePaths(p.value, path));
            }
          }
        case ArraySchema(element) =>
          CollectValuePaths(element, base + "[]");
        case Refined(inner) =>
          CollectValuePaths(inner, base);
        case _ =>
      }
    }

    method Visit(schema: Schema, aliases: set<Alias>)
      modifies this
      ensures Found() == Both(old(Found()), Visited(env, schema, aliases))
      decreases |env.Keys - aliases|, schema, 1
    {
      match schema {
        case ObjectOf(properties) =>
          VisitProperties(properties);
        case IntersectOf(parts) =>
          VisitParts(schema, aliases);
        case UnionOf(parts) =>
          VisitParts(schema, aliases);
        case Refined(base) =>
          if IsCall(base) {
            Visit(base, aliases);
          } else {
            violations := violations + [NoBaseCall];
          }
        case ArraySchema(_) =>
          violations := violations + [NoBaseCall];
        case OtherCall =>
          violations := violations + [NoBaseCall];
        case Named(a) =>
          if a in aliases {
            violations := violations + [CyclicAlias(a)];
          } else if a !in env {
            violations := violations + [UnknownAlias(a)];
          } else {
            SmallerRest(env, aliases, a);
            Visit(env[a], aliases + {a});
          }
        case NotACall =>
          violations := violations + [NotWalkable];
      }
    }

    method VisitProperties(properties: seq<SchemaProperty>)
      modifies this
      ensures Found() == Both(old(Found()), TopProperties(properties))
    {
      for n := 0 to |properties|
        invariant Found() == Both(old(Found()), TopProperties(properties[..n]))
      {
        BothRegroups(old(Found()), TopProperties(properties[..n]), TopProperty(properties[n]));
        assert properties[..n + 1][..n] == properties[..n];
        VisitProperty(properties[n]);
      }
      assert properties[..|properties|] == properties;
    }

    method VisitProperty(p: SchemaProperty)
      modifies this
      ensures Found() == Both(old(Found()), TopProperty(p))
    {
      match p {
        case Assigned(key, value) =>
          ghost var before := keys;
          keys := keys + [key];
          CollectValuePaths(value, key);
          assert keys == before + ([key] + ValuePaths(value, key));
        case Shorthand(key) =>
          keys := keys + [key];
        case Unplain(text) =>
          violations := violations + [NotAPlainKey(text)];
      }
    }

    method VisitParts(schema: Schema, aliases: set<Alias>)
      requires schema.IntersectOf? || schema.UnionOf?
      modifies this
      ensures Found() == Both(old(Found()), PartsVisited(env, schema, |schema.parts|, aliases))
      decreases |env.Keys - aliases|, schema, 0
    {
      for n := 0 to |schema.parts|
        invariant Found() == Both(old(Found()), PartsVisited(env, schema, n, aliases))
      {
        ghost var before := Found();
        ghost var soFar := PartsVisited(env, schema, n, aliases);
        match schema.parts[n] {
          case Inline(inner) =>
            Visit(inner, aliases);
            BothRegroups(old(Found()), soFar, Visited(env, inner, aliases));
          case Composed(specifier) =>
            if schema.IntersectOf? {
              composes := composes + [specifier];
              BothRegroups(old(Found()), soFar, Collected([], [specifier], []));
            } else {
              violations := violations + [NotAUnionElement];
              BothRegroups(old(Found()), soFar, Violated(NotAUnionElement));
            }
          case OtherPart =>
            var v := if schema.IntersectOf? then NotAnIntersectElement else NotAUnionElement;
            violations := violations + [v];
            BothRegroups(old(Found()), soFar, Violated(v));
        }
      }
    }
  }

  lemma BothRegroups(x: Collected, y: Collected, z: Collected)
    ensures Both(Both(x, y), z) == Both(x, Both(y, z))
  {
  }

  // ---------------------------------------------------------------- the keys are the declared paths

  function OnStep(base: string, step: Step): string {
    match step
    case Element => base + "[]"
    case Member(name) => base + "." + name
  }

  function Onto(base: string, steps: seq<Step>): string
    decreases steps
  {
    if steps == [] then base else Onto(OnStep(base, steps[0]), steps[1..])
  }

  lemma {:induction false} OntoSnoc(base: string, steps: seq<Step>, last: Step)
    ensures Onto(base, steps + [last]) == OnStep(Onto(base, steps), last)
    decreases steps
  {
    if steps == [] {
      assert ([] + [last])[1..] == [];
    } else {
      assert (steps + [last])[1..] == steps[1..] + [last];
      OntoSnoc(OnStep(base, steps[0]), steps[1..], last);
    }
  }

  /** Printing from the end is extending from the front. */
  lemma {:induction false} PrintExtends(steps: seq<Step>)
    requires steps != [] && steps[0].Member?
    ensures Print(steps) == Onto(steps[0].name, steps[1..])
  {
    var n := |steps| - 1;
    if n > 0 {
      PrintExtends(steps[..n]);
      assert steps[1..] == steps[..n][1..] + [steps[n]];
      OntoSnoc(steps[0].name, steps[..n][1..], steps[n]);
    }
  }

  lemma {:induction false} DeclaredIsCollected(value: Schema, steps: seq<Step>, base: string)
    requires InValue(value, steps)
    ensures Onto(base, steps) in ValuePaths(value, base)
    decreases value
  {
    match value
    case ObjectOf(properties) =>
      var i :| 0 <= i < |properties| && properties[i].Assigned? && steps[0] == Member(properties[i].key) &&
        (|steps| == 1 || InValue(properties[i].value, steps[1..]));
      var below := base + "." + properties[i].key;
      assert Onto(base, steps) == Onto(below, steps[1..]);
      if |steps| > 1 {
        DeclaredIsCollected(properties[i].value, steps[1..], below);
      } else {
        assert steps[1..] == [];
      }
      PropertyCollected(value, i, |properties|, base, Onto(base, steps));
    case ArraySchema(element) =>
      DeclaredIsCollected(element, steps[1..], base + "[]");
    case Refined(inner) =>
      DeclaredIsCollected(inner, steps, base);
  }

  lemma {:induction false} PropertyCollected(value: Schema, i: nat, n: nat, base: string, key: string)
    requires value.ObjectOf? && i < n <= |value.properties| && value.properties[i].Assigned?
    requires var below := base + "." + value.properties[i].key;
             key == below || key in ValuePaths(value.properties[i].value, below)
    ensures key in PropertyPaths(value, n, base)
  {
    if i < n - 1 {
      PropertyCollected(value, i, n - 1, base, key);
    }
  }

  lemma {:induction false} CollectedProperty(value: Schema, n: nat, base: string, key: string) returns (i: nat)
    requires value.ObjectOf? && n <= |value.properties|
    requires key in PropertyPaths(value, n, base)
    ensures i < n && value.properties[i].Assigned?
    ensures var below := base + "." + value.properties[i].key;
            key == below || key in ValuePaths(value.properties[i].value, below)
  {
    i := n - 1;
    if key in PropertyPaths(value, n - 1, base) {
      i := CollectedProperty(value, n - 1, base, key);
    }
  }

  lemma {:induction false} CollectedIsDeclared(value: Schema, base: string, key: string) returns (steps: seq<Step>)
    requires key in ValuePaths(value, base)
    ensures InValue(value, steps) && key == Onto(base, steps)
    decreases value
  {
    match value
    case ObjectOf(properties) =>
      var i := CollectedProperty(value, |properties|, base, key);
      var p := properties[i];
      var below := base + "." + p.key;
      var rest: seq<Step> := [];
      if key != below {
        rest := CollectedIsDeclared(p.value, below, key);
      }
      steps := [Member(p.key)] + rest;
      assert steps[1..] == rest;
    case ArraySchema(element) =>
      var rest := CollectedIsDeclared(element, base + "[]", key);
      steps := [Element] + rest;
      assert steps[1..] == rest;
    case Refined(inner) =>
      steps := CollectedIsDeclared(inner, base, key);
  }

  lemma PropertyPathCollected(p: SchemaProperty, steps: seq<Step>)
    requires steps != [] && InProperty(p, steps)
    ensures steps[0].Member? && Print(steps) in TopProperty(p).keys
  {
    PrintExtends(steps);
    if |steps| > 1 {
      DeclaredIsCollected(p.value, steps[1..], p.key);
    } else {
      assert steps[1..] == [];
    }
  }

  lemma {:induction false} TopPropertyIn(properties: seq<SchemaProperty>, i: nat)
    requires i < |properties|
    ensures forall k :: k in TopProperty(properties[i]).keys ==> k in TopProperties(properties).keys
  {
    var n := |properties| - 1;
    if i < n {
      TopPropertyIn(properties[..n], i);
    }
  }

  lemma {:induction false} TopPropertyOf(properties: seq<SchemaProperty>, key: string) returns (i: nat)
    requires key in TopProperties(properties).keys
    ensures i < |properties| && key in TopProperty(properties[i]).keys
  {
    i := |properties| - 1;
    if key in TopProperties(properties[..i]).keys {
      i := TopPropertyOf(properties[..i], key);
    }
  }

  lemma {:induction false} PartIn(env: Aliases, schema: Schema, aliases: set<Alias>, n: nat, i: nat)
    requires (schema.IntersectOf? || schema.UnionOf?) && i < n <= |schema.parts| && schema.parts[i].Inline?
    ensures forall k :: k in Visited(env, schema.parts[i].schema, aliases).keys ==>
              k in PartsVisited(env, schema, n, aliases).keys
  {
    if i < n - 1 {
      PartIn(env, schema, aliases, n - 1, i);
    }
  }

  lemma {:induction false} PartOf(env: Aliases, schema: Schema, aliases: set<Alias>, n: nat, key: string)
    returns (i: nat)
    requires (schema.IntersectOf? || schema.UnionOf?) && n <= |schema.parts|
    requires key in PartsVisited(env, schema, n, aliases).keys
    ensures i < n && schema.parts[i].Inline? && key in Visited(env, schema.parts[i].schema, aliases).keys
  {
    i := n - 1;
    if key in PartsVisited(env, schema, n - 1, aliases).keys {
      i := PartOf(env, schema, aliases, n - 1, key);
    }
  }

  /** Every path that uses no name twice is collected, in print. */
  lemma {:induction false} FreshPathsCollected(env: Aliases, schema: Schema, aliases: set<Alias>, steps: seq<Step>)
    requires InFresh(env, schema, aliases, steps)
    ensures steps[0].Member? && Print(steps) in Visited(env, schema, aliases).keys
    decreases |env.Keys - aliases|, schema
  {
    match schema
    case ObjectOf(properties) =>
      var i :| 0 <= i < |properties| && InProperty(properties[i], steps);
      PropertyPathCollected(properties[i], steps);
      TopPropertyIn(properties, i);
    case IntersectOf(parts) =>
      var i :| 0 <= i < |parts| && parts[i].Inline? && InFresh(env, parts[i].schema, aliases, steps);
      FreshPathsCollected(env, parts[i].schema, aliases, steps);
      PartIn(env, schema, aliases, |parts|, i);
    case UnionOf(parts) =>
      var i :| 0 <= i < |parts| && parts[i].Inline? && InFresh(env, parts[i].schema, aliases, steps);
      FreshPathsCollected(env, parts[i].schema, aliases, steps);
      PartIn(env, schema, aliases, |parts|, i);
    case Refined(base) =>
      FreshPathsCollected(env, base, aliases, steps);
    case Named(a) =>
      SmallerRest(env, aliases, a);
      FreshPathsCollected(env, env[a], aliases + {a}, steps);
  }

  lemma CollectedUnder(p: SchemaProperty, key: string) returns (steps: seq<Step>)
    requires key in TopProperty(p).keys
    ensures steps != [] && InProperty(p, steps) && key == Print(steps)
  {
    var rest: seq<Step> := [];
    if key != p.key {
      rest := CollectedIsDeclared(p.value, p.key, key);
    }
    steps := [Member(p.key)] + rest;
    assert steps[1..] == rest;
    PrintExtends(steps);
  }

  lemma {:induction false} CollectedPathsFresh(env: Aliases, schema: Schema, aliases: set<Alias>, key: string)
    returns (steps: seq<Step>)
    requires key in Visited(env, schema, aliases).keys
    ensures InFresh(env, schema, aliases, steps) && steps[0].Member? && key == Print(steps)
    decreases |env.Keys - aliases|, schema
  {
    match schema
    case ObjectOf(properties) =>
      var i := TopPropertyOf(properties, key);
      steps := CollectedUnder(properties[i], key);
    case IntersectOf(parts) =>
      var i := PartOf(env, schema, aliases, |parts|, key);
      steps := CollectedPathsFresh(env, parts[i].schema, aliases, key);
    case UnionOf(parts) =>
      var i := PartOf(env, schema, aliases, |parts|, key);
      steps := CollectedPathsFresh(env, parts[i].schema, aliases, key);
    case Refined(base) =>
      steps := CollectedPathsFresh(env, base, aliases, key);
    case Named(a) =>
      SmallerRest(env, aliases, a);
      steps := CollectedPathsFresh(env, env[a], aliases + {a}, key);
  }

  // ---------------------------------------------------------------- cyclic names lose nothing

  /** Behind some name of `aliases` the path is declared, with less depth. */
  ghost predicate BehindAlias(env: Aliases, aliases: set<Alias>, steps: seq<Step>, depth: nat) {
    exists a, d: nat :: a in aliases && a in env && d < depth && InSchemaWithin(env, env[a], steps, d)
  }

  /** A declared path is found without using a name again, or lies behind a name that is in use, less deep. */
  lemma {:induction false} FreshOrBehind(
    env: Aliases, schema: Schema, aliases: set<Alias>, steps: seq<Step>, depth: nat)
    requires InSchemaWithin(env, schema, steps, depth)
    ensures InFresh(env, schema, aliases, steps) || BehindAlias(env, aliases, steps, depth)
    decreases depth, schema
  {
    match schema
    case ObjectOf(_) =>
    case IntersectOf(parts) =>
      var i :| 0 <= i < |parts| && parts[i].Inline? && InSchemaWithin(env, parts[i].schema, steps, depth);
      FreshOrBehind(env, parts[i].schema, aliases, steps, depth);
    case UnionOf(parts) =>
      var i :| 0 <= i < |parts| && parts[i].Inline? && InSchemaWithin(env, parts[i].schema, steps, depth);
      FreshOrBehind(env, parts[i].schema, aliases, steps, depth);
    case Refined(base) =>
      FreshOrBehind(env, base, aliases, steps, depth);
    case Named(a) =>
      if a !in aliases {
        FreshOrBehind(env, env[a], aliases + {a}, steps, depth - 1);
        if !InFresh(env, schema, aliases, steps) {
          var b, d: nat :| b in aliases + {a} && b in env && d < depth - 1 && InSchemaWithin(env, env[b], steps, d);
          if b == a {
            FreshOrBehind(env, schema, aliases, steps, d + 1);
          }
        }
      }
  }

  lemma {:induction false} FreshIsDeclared(env: Aliases, schema: Schema, aliases: set<Alias>, steps: seq<Step>)
    returns (depth: nat)
    requires InFresh(env, schema, aliases, steps)
    ensures InSchemaWithin(env, schema, steps, depth)
    decreases |env.Keys - aliases|, schema
  {
    depth := 0;
    match schema
    case ObjectOf(_) =>
    case IntersectOf(parts) =>
      var i :| 0 <= i < |parts| && parts[i].Inline? && InFresh(env, parts[i].schema, aliases, steps);
      depth := FreshIsDeclared(env, parts[i].schema, aliases, steps);
    case UnionOf(parts) =>
      var i :| 0 <= i < |parts| && parts[i].Inline? && InFresh(env, parts[i].schema, aliases, steps);
      depth := FreshIsDeclared(env, parts[i].schema, aliases, steps);
    case Refined(base) =>
      depth := FreshIsDeclared(env, base, aliases, steps);
    case Named(a) =>
      SmallerRest(env, aliases, a);
      depth := FreshIsDeclared(env, env[a], aliases + {a}, steps);
      depth := depth + 1;
  }

  /** Although a name that is in use is not followed again, the walk sees every declared path. */
  lemma DeclaredIffFresh(env: Aliases, schema: Schema, steps: seq<Step>)
    ensures InSchema(env, schema, steps) <==> InFresh(env, schema, {}, steps)
  {
    if depth: nat :| InSchemaWithin(env, schema, steps, depth) {
      FreshOrBehind(env, schema, {}, steps, depth);
    }
    if InFresh(env, schema, {}, steps) {
      var depth := FreshIsDeclared(env, schema, {}, steps);
    }
  }

  /** The walk of a whole schema. */
  function Walked(env: Aliases, schema: Schema): Collected {
    Visited(env, schema, {})
  }

  /** Every path the schema declares is collected, in print. */
  lemma DeclaredPathsCollected(env: Aliases, schema: Schema, steps: seq<Step>)
    requires InSchema(env, schema, steps)
    ensures steps != [] && steps[0].Member? && Print(steps) in Walked(env, schema).keys
  {
    DeclaredIffFresh(env, schema, steps);
    FreshPathsCollected(env, schema, {}, steps);
  }

  /** Every collected key is the print of a path the schema declares. */
  lemma CollectedPathsDeclared(env: Aliases, schema: Schema, key: string) returns (steps: seq<Step>)
    requires key in Walked(env, schema).keys
    ensures InSchema(env, schema, steps) && steps != [] && steps[0].Member? && key == Print(steps)
  {
    steps := CollectedPathsFresh(env, schema, {}, key);
    DeclaredIffFresh(env, schema, steps);
  }

  // ---------------------------------------------------------------- round trip

  /** No key inside the value holds a dot or ends in brackets. */
  predicate CleanValue(value: Schema) {
    match value
    case ObjectOf(properties) =>
      forall i :: 0 <= i < |properties| && properties[i].Assigned? ==>
        Clean(properties[i].key) && CleanValue(properties[i].value)
    case ArraySchema(element) => CleanValue(element)
    case Refined(base) => CleanValue(base)
    case _ => true
  }

  /** No key that the walk meets holds a dot or ends in brackets. */
  predicate CleanFresh(env: Aliases, schema: Schema, aliases: set<Alias>)
    decreases |env.Keys - aliases|, schema
  {
    match schema
    case ObjectOf(properties) =>
      forall i :: 0 <= i < |properties| && !properties[i].Unplain? ==>
        Clean(properties[i].key) && (properties[i].Assigned? ==> CleanValue(properties[i].value))
    case IntersectOf(parts) => forall i :: 0 <= i < |parts| && parts[i].Inline? ==>
        CleanFresh(env, parts[i].schema, aliases)
    case UnionOf(parts) => forall i :: 0 <= i < |parts| && parts[i].Inline? ==>
        CleanFresh(env, parts[i].schema, aliases)
    case Refined(base) => IsCall(base) ==> CleanFresh(env, base, aliases)
    case Named(a) =>
      a in env && a !in aliases ==> (SmallerRest(env, aliases, a); CleanFresh(env, env[a], aliases + {a}))
    case _ => true
  }

  predicate CleanSchema(env: Aliases, schema: Schema) {
    CleanFresh(env, schema, {})
  }

  lemma AllCleanFrom(steps: seq<Step>)
    requires steps != [] && (steps[0].Member? ==> Clean(steps[0].name)) && AllClean(steps[1..])
    ensures AllClean(steps)
  {
    forall i | 0 <= i < |steps| && steps[i].Member? ensures Clean(steps[i].name) {
      if i > 0 {
        assert steps[i] == steps[1..][i - 1];
      }
    }
  }

  lemma {:induction false} CleanValuePaths(value: Schema, steps: seq<Step>)
    requires CleanValue(value) && InValue(value, steps)
    ensures AllClean(steps)
    decreases value
  {
    match value
    case ObjectOf(properties) =>
      var i :| 0 <= i < |properties| && properties[i].Assigned? && steps[0] == Member(properties[i].key) &&
        (|steps| == 1 || InValue(properties[i].value, steps[1..]));
      if |steps| > 1 {
        CleanValuePaths(properties[i].value, steps[1..]);
      }
      AllCleanFrom(steps);
    case ArraySchema(element) =>
      CleanValuePaths(element, steps[1..]);
      AllCleanFrom(steps);
    case Refined(base) =>
      CleanValuePaths(base, steps);
  }

  lemma {:induction false} CleanSchemaPaths(env: Aliases, schema: Schema, aliases: set<Alias>, steps: seq<Step>)
    requires CleanFresh(env, schema, aliases) && InFresh(env, schema, aliases, steps)
    ensures AllClean(steps)
    decreases |env.Keys - aliases|, schema
  {
    match schema
    case ObjectOf(properties) =>
      var i :| 0 <= i < |properties| && InProperty(properties[i], steps);
      if |steps| > 1 {
        CleanValuePaths(properties[i].value, steps[1..]);
      }
      AllCleanFrom(steps);
    case IntersectOf(parts) =>
      var i :| 0 <= i < |parts| && parts[i].Inline? && InFresh(env, parts[i].schema, aliases, steps);
      CleanSchemaPaths(env, parts[i].schema, aliases, steps);
    case UnionOf(parts) =>
      var i :| 0 <= i < |parts| && parts[i].Inline? && InFresh(env, parts[i].schema, aliases, steps);
      CleanSchemaPaths(env, parts[i].schema, aliases, steps);
    case Refined(base) =>
      CleanSchemaPaths(env, base, aliases, steps);
    case Named(a) =>
      SmallerRest(env, aliases, a);
      CleanSchemaPaths(env, env[a], aliases + {a}, steps);
  }

  lemma UncleanBehind(step: Step, rest: seq<Step>)
    requires !AllClean(rest)
    ensures !AllClean([step] + rest)
  {
    var i :| 0 <= i < |rest| && rest[i].Member? && !Clean(rest[i].name);
    assert ([step] + rest)[i + 1] == rest[i];
  }

  lemma {:induction false} UncleanValuePath(value: Schema) returns (steps: seq<Step>)
    requires !CleanValue(value)
    ensures InValue(value, steps) && !AllClean(steps)
    decreases value
  {
    match value
    case ObjectOf(properties) =>
      var i :| 0 <= i < |properties| && properties[i].Assigned? &&
        !(Clean(properties[i].key) && CleanValue(properties[i].value));
      steps := [Member(properties[i].key)];
      if Clean(properties[i].key) {
        var rest := UncleanValuePath(properties[i].value);
        UncleanBehind(steps[0], rest);
        steps := steps + rest;
        assert steps[1..] == rest;
      }
    case ArraySchema(element) =>
      var rest := UncleanValuePath(element);
      UncleanBehind(Element, rest);
      steps := [Element] + rest;
      assert steps[1..] == rest;
    case Refined(base) =>
      steps := UncleanValuePath(base);
  }

  lemma {:induction false} UncleanSchemaPath(env: Aliases, schema: Schema, aliases: set<Alias>)
    returns (steps: seq<Step>)
    requires !CleanFresh(env, schema, aliases)
    ensures InFresh(env, schema, aliases, steps) && !AllClean(steps)
    decreases |env.Keys - aliases|, schema
  {
    match schema
    case ObjectOf(properties) =>
      var i :| 0 <= i < |properties| && !properties[i].Unplain? &&
        !(Clean(properties[i].key) && (properties[i].Assigned? ==> CleanValue(properties[i].value)));
      steps := [Member(properties[i].key)];
      if Clean(properties[i].key) {
        var rest := UncleanValuePath(properties[i].value);
        UncleanBehind(steps[0], rest);
        steps := steps + rest;
        assert steps[1..] == rest;
      }
      assert InProperty(properties[i], steps);
    case IntersectOf(parts) =>
      var i :| 0 <= i < |parts| && parts[i].Inline? && !CleanFresh(env, parts[i].schema, aliases);
      steps := UncleanSchemaPath(env, parts[i].schema, aliases);
    case UnionOf(parts) =>
      var i :| 0 <= i < |parts| && parts[i].Inline? && !CleanFresh(env, parts[i].schema, aliases);
      steps := UncleanSchemaPath(env, parts[i].schema, aliases);
    case Refined(base) =>
      steps := UncleanSchemaPath(env, base, aliases);
    case Named(a) =>
      SmallerRest(env, aliases, a);
      steps := UncleanSchemaPath(env, env[a], aliases + {a});
  }

  /** Every declared path of the schema survives printing and parsing. */
  ghost predicate PathsRoundTrip(env: Aliases, schema: Schema) {
    forall steps :: InSchema(env, schema, steps) ==> Parse(Print(steps)) == steps
  }

  /** The whole walk round trips exactly when the schema's keys hold no dot and do not end in brackets. */
  lemma SchemaRoundTripsIffClean(env: Aliases, schema: Schema)
    ensures PathsRoundTrip(env, schema) <==> CleanSchema(env, schema)
  {
    if CleanSchema(env, schema) {
      forall steps | InSchema(env, schema, steps) ensures Parse(Print(steps)) == steps {
        DeclaredIffFresh(env, schema, steps);
        CleanSchemaPaths(env, schema, {}, steps);
        DeclaredPathsCollected(env, schema, steps);
        RoundTripIffClean(steps);
      }
    } else {
      var steps := UncleanSchemaPath(env, schema, {});
      DeclaredIffFresh(env, schema, steps);
      DeclaredPathsCollected(env, schema, steps);
      RoundTripIffClean(steps);
    }
  }

  /** On a clean schema the collected keys are, parsed, exactly the declared paths. */
  lemma KeysAreDeclaredPaths(env: Aliases, schema: Schema)
    requires CleanSchema(env, schema)
    ensures forall key :: key in Walked(env, schema).keys ==>
              InSchema(env, schema, Parse(key)) && Print(Parse(key)) == key
    ensures forall steps :: InSchema(env, schema, steps) ==>
              exists key :: key in Walked(env, schema).keys && Parse(key) == steps
  {
    SchemaRoundTripsIffClean(env, schema);
    forall key | key in Walked(env, schema).keys
      ensures InSchema(env, schema, Parse(key)) && Print(Parse(key)) == key
    {
      var steps := CollectedPathsDeclared(env, schema, key);
    }
    forall steps | InSchema(env, schema, steps)
      ensures exists key :: key in Walked(env, schema).keys && Parse(key) == steps
    {
      DeclaredPathsCollected(env, schema, steps);
      assert Print(steps) in Walked(env, schema).keys;
    }
  }

  // ---------------------------------------------------------------- the presence check of a schema

  /** A collected key is reported as missing from the declared type. */
  ghost predicate ReportedKey(env: Aliases, schema: Schema, w: World, id: DeclId, fuel: nat, key: string)
    requires id in w.decls
  {
    && key in Walked(env, schema).keys
    && LookupDecl(w, id, Parse(key), {}, fuel).Done? && LookupDecl(w, id, Parse(key), {}, fuel).result.Missing?
  }

  /**
   Where every member of the types is a property signature that is written without quotes, a
   report on a clean schema is definite: the key is a declared schema path that no reading of the
   types admits.
   */
  lemma ReportIsDefinite(env: Aliases, schema: Schema, w: World, id: DeclId, fuel: nat, key: string)
    requires CleanSchema(env, schema) && PlainWorld(w) && id in w.decls
    requires ReportedKey(env, schema, w, id, fuel, key)
    ensures InSchema(env, schema, Parse(key)) && Print(Parse(key)) == key && !MayDecl(w, id, Parse(key))
  {
    KeysAreDeclaredPaths(env, schema);
    DeclLookupSound(w, id, Parse(key), {}, fuel);
  }

  /**
   Where the path of a key runs through no declaration twice with the same number of steps left, a
   clean schema's keys are reported exactly when they are declared schema paths that no reading of
   the types admits.
   */
  lemma ReportedIffAbsent(env: Aliases, schema: Schema, w: World, id: DeclId, fuel: nat, key: string)
    requires CleanSchema(env, schema) && PlainWorld(w) && InterfaceBases(w) && id in w.decls
    requires DeclLine(w, id, Parse(key), fuel).Line? && NoDuplicates(DeclLine(w, id, Parse(key), fuel).entries)
    ensures ReportedKey(env, schema, w, id, fuel, key) <==>
              InSchema(env, schema, Parse(key)) && Print(Parse(key)) == key && !MayDecl(w, id, Parse(key))
  {
    KeysAreDeclaredPaths(env, schema);
    PathAnsweredExactly(w, id, Parse(key), fuel);
    if InSchema(env, schema, Parse(key)) && Print(Parse(key)) == key {
      DeclaredPathsCollected(env, schema, Parse(key));
    }
  }

  /**
   Elsewhere a report can be false: `z.object({ 'foo-bar': z.string() })` is reported against
   `interface C { 'foo-bar': string }`.
   */
  lemma QuotedKeyReported(env: Aliases, id: DeclId, fuel: nat)
    requires fuel > 0
    ensures var schema := ObjectOf([Assigned("foo-bar", OtherCall)]);
            && CleanSchema(env, schema)
            && ReportedKey(env, schema, QuotedWorld(id), id, fuel, "foo-bar")
            && MustDecl(QuotedWorld(id), id, Parse("foo-bar"))
  {
    PlainNameClean();
    CleanParses("foo-bar");
    QuotedKeyReportedMissing(id, fuel);
    OneKey(env, "foo-bar");
  }

  lemma PlainNameClean()
    ensures Clean("foo-bar")
  {
    var name := "foo-bar";
    assert name[|name| - 2..][0] == 'a';
  }

  lemma OneKey(env: Aliases, key: string)
    requires Clean(key)
    ensures var schema := ObjectOf([Assigned(key, OtherCall)]);
            CleanSchema(env, schema) && Walked(env, schema).keys == [key]
  {
    var properties := [Assigned(key, OtherCall)];
    assert properties[..0] == [];
    assert ValuePaths(OtherCall, key) == [];
    assert TopProperty(properties[0]).keys == [key] + [];
    assert TopProperties(properties) == Both(TopProperties(properties[..0]), TopProperty(properties[0]));
    assert Visited(env, ObjectOf(properties), {}) == TopProperties(properties);
    assert [] + [key] == [key];
  }
}
