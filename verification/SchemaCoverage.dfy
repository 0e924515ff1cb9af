/**
 What the schema walk sees: the composed packages it records, and exactly when it reports nothing.
 A schema the walk cannot see through is reported instead of being thinned out silently.
 */
module SchemaCoverage {
  import opened SchemaWalk

  // ---------------------------------------------------------------- the expressions that are met

  /** The walk of `schema` meets `x`: through refinements, inline parts, and names up to `depth` deep. */
  predicate MetWithin(env: Aliases, schema: Schema, x: Schema, depth: nat)
    decreases depth, schema
  {
    schema == x ||
    match schema
    case IntersectOf(parts) =>
      exists i :: 0 <= i < |parts| && parts[i].Inline? && MetWithin(env, parts[i].schema, x, depth)
    case UnionOf(parts) => exists i :: 0 <= i < |parts| && parts[i].Inline? && MetWithin(env, parts[i].schema, x, depth)
    case Refined(base) => IsCall(base) && MetWithin(env, base, x, depth)
    case Named(a) => depth > 0 && a in env && MetWithin(env, env[a], x, depth - 1)
    case _ => false
  }

  ghost predicate Met(env: Aliases, schema: Schema, x: Schema) {
    exists depth: nat :: MetWithin(env, schema, x, depth)
  }

  /** The same without going through one of `aliases`, or through any name twice. */
  predicate MetFresh(env: Aliases, schema: Schema, aliases: set<Alias>, x: Schema)
    decreases |env.Keys - aliases|, schema
  {
    schema == x ||
    match schema
    case IntersectOf(parts) =>
      exists i :: 0 <= i < |parts| && parts[i].Inline? && MetFresh(env, parts[i].schema, aliases, x)
    case UnionOf(parts) =>
      exists i :: 0 <= i < |parts| && parts[i].Inline? && MetFresh(env, parts[i].schema, aliases, x)
    case Refined(base) => IsCall(base) && MetFresh(env, base, aliases, x)
    case Named(a) =>
      a in env && a !in aliases && (SmallerRest(env, aliases, a); MetFresh(env, env[a], aliases + {a}, x))
    case _ => false
  }

  ghost predicate MetBehind(env: Aliases, aliases: set<Alias>, x: Schema, depth: nat) {
    exists a, d: nat :: a in aliases && a in env && d < depth && MetWithin(env, env[a], x, d)
  }

  lemma {:induction false} MetFreshOrBehind(env: Aliases, schema: Schema, aliases: set<Alias>, x: Schema, depth: nat)
    requires MetWithin(env, schema, x, depth)
    ensures MetFresh(env, schema, aliases, x) || MetBehind(env, aliases, x, depth)
    decreases depth, schema
  {
    if schema != x {
      match schema
      case IntersectOf(parts) =>
        var i :| 0 <= i < |parts| && parts[i].Inline? && MetWithin(env, parts[i].schema, x, depth);
        MetFreshOrBehind(env, parts[i].schema, aliases, x, depth);
      case UnionOf(parts) =>
        var i :| 0 <= i < |parts| && parts[i].Inline? && MetWithin(env, parts[i].schema, x, depth);
        MetFreshOrBehind(env, parts[i].schema, aliases, x, depth);
      case Refined(base) =>
        MetFreshOrBehind(env, base, aliases, x, depth);
      case Named(a) =>
        if a !in aliases {
          MetFreshOrBehind(env, env[a], aliases + {a}, x, depth - 1);
          if !MetFresh(env, schema, aliases, x) {
            var b, d: nat :| b in aliases + {a} && b in env && d < depth - 1 && MetWithin(env, env[b], x, d);
            if b == a {
              MetFreshOrBehind(env, schema, aliases, x, d + 1);
            }
          }
        }
    }
  }

  lemma {:induction false} FreshIsMet(env: Aliases, schema: Schema, aliases: set<Alias>, x: Schema) returns (depth: nat)
    requires MetFresh(env, schema, aliases, x)
    ensures MetWithin(env, schema, x, depth)
    decreases |env.Keys - aliases|, schema
  {
    depth := 0;
    if schema != x {
      match schema
      case IntersectOf(parts) =>
        var i :| 0 <= i < |parts| && parts[i].Inline? && MetFresh(env, parts[i].schema, aliases, x);
        depth := FreshIsMet(env, parts[i].schema, aliases, x);
      case UnionOf(parts) =>
        var i :| 0 <= i < |parts| && parts[i].Inline? && MetFresh(env, parts[i].schema, aliases, x);
        depth := FreshIsMet(env, parts[i].schema, aliases, x);
      case Refined(base) =>
        depth := FreshIsMet(env, base, aliases, x);
      case Named(a) =>
        SmallerRest(env, aliases, a);
        depth := FreshIsMet(env, env[a], aliases + {a}, x);
        depth := depth + 1;
    }
  }

  /** Although a name in use is not followed again, every expression behind it is met. */
  lemma MetIffFresh(env: Aliases, schema: Schema, x: Schema)
    ensures Met(env, schema, x) <==> MetFresh(env, schema, {}, x)
  {
    if depth: nat :| MetWithin(env, schema, x, depth) {
      MetFreshOrBehind(env, schema, {}, x, depth);
    }
    if MetFresh(env, schema, {}, x) {
      var depth := FreshIsMet(env, schema, {}, x);
    }
  }

  // ---------------------------------------------------------------- composed packages

  predicate Composes(x: Schema, specifier: string) {
    x.IntersectOf? && Composed(specifier) in x.parts
  }

  ghost predicate ComposesFresh(env: Aliases, schema: Schema, aliases: set<Alias>, specifier: string) {
    exists x :: MetFresh(env, schema, aliases, x) && Composes(x, specifier)
  }

  lemma {:induction false} NothingComposed(properties: seq<SchemaProperty>)
    ensures TopProperties(properties).composes == []
  {
    if properties != [] {
      NothingComposed(properties[..|properties| - 1]);
    }
  }

  ghost predicate PartComposes(env: Aliases, schema: Schema, i: nat, aliases: set<Alias>, specifier: string)
    requires (schema.IntersectOf? || schema.UnionOf?) && i < |schema.parts|
  {
    || (schema.IntersectOf? && schema.parts[i] == Composed(specifier))
    || (schema.parts[i].Inline? && specifier in Visited(env, schema.parts[i].schema, aliases).composes)
  }

  lemma {:induction false} PartsCompose(env: Aliases, schema: Schema, n: nat, aliases: set<Alias>, specifier: string)
    requires (schema.IntersectOf? || schema.UnionOf?) && n <= |schema.parts|
    ensures specifier in PartsVisited(env, schema, n, aliases).composes <==>
              exists i :: 0 <= i < n && PartComposes(env, schema, i, aliases, specifier)
    decreases n
  {
    if n > 0 {
      PartsCompose(env, schema, n - 1, aliases, specifier);
      var all, before := PartsVisited(env, schema, n, aliases), PartsVisited(env, schema, n - 1, aliases);
      assert PartComposes(env, schema, n - 1, aliases, specifier) <==>
             specifier in all.composes[|before.composes|..];
    }
  }

  /** What is composed below a schema with parts is composed by it, or below one of its inline parts. */
  lemma PartsComposeFresh(env: Aliases, schema: Schema, aliases: set<Alias>, specifier: string)
    requires schema.IntersectOf? || schema.UnionOf?
    ensures ComposesFresh(env, schema, aliases, specifier) <==>
              || (schema.IntersectOf? && Composed(specifier) in schema.parts)
              || exists i :: 0 <= i < |schema.parts| && schema.parts[i].Inline? &&
                   ComposesFresh(env, schema.parts[i].schema, aliases, specifier)
  {
    if ComposesFresh(env, schema, aliases, specifier) {
      var x :| MetFresh(env, schema, aliases, x) && Composes(x, specifier);
      if x != schema {
        var i :| && 0 <= i < |schema.parts| && schema.parts[i].Inline?
                 && MetFresh(env, schema.parts[i].schema, aliases, x);
        assert ComposesFresh(env, schema.parts[i].schema, aliases, specifier);
      }
    }
    if i :| 0 <= i < |schema.parts| && schema.parts[i].Inline? &&
            ComposesFresh(env, schema.parts[i].schema, aliases, specifier) {
      var x :| MetFresh(env, schema.parts[i].schema, aliases, x) && Composes(x, specifier);
      assert MetFresh(env, schema, aliases, x);
    }
    if schema.IntersectOf? && Composed(specifier) in schema.parts {
      assert MetFresh(env, schema, aliases, schema) && Composes(schema, specifier);
    }
  }

  lemma {:induction false} ComposedFresh(env: Aliases, schema: Schema, aliases: set<Alias>, specifier: string)
    ensures specifier in Visited(env, schema, aliases).composes <==> ComposesFresh(env, schema, aliases, specifier)
    decreases |env.Keys - aliases|, schema
  {
    match schema
    case ObjectOf(properties) =>
      NothingComposed(properties);
    case IntersectOf(parts) =>
      PartsComposedFresh(env, schema, aliases, specifier);
    case UnionOf(parts) =>
      PartsComposedFresh(env, schema, aliases, specifier);
    case Refined(base) =>
      if IsCall(base) {
        ComposedFresh(env, base, aliases, specifier);
      }
      assert forall x :: MetFresh(env, schema, aliases, x) <==>
             x == schema || (IsCall(base) && MetFresh(env, base, aliases, x));
    case Named(a) =>
      if a in env && a !in aliases {
        SmallerRest(env, aliases, a);
        ComposedFresh(env, env[a], aliases + {a}, specifier);
        assert forall x :: MetFresh(env, schema, aliases, x) <==>
               x == schema || MetFresh(env, env[a], aliases + {a}, x);
      }
    case ArraySchema(_) =>
    case OtherCall =>
    case NotACall =>
  }

  lemma {:induction false} PartsComposedFresh(env: Aliases, schema: Schema, aliases: set<Alias>, specifier: string)
    requires schema.IntersectOf? || schema.UnionOf?
    ensures specifier in Visited(env, schema, aliases).composes <==> ComposesFresh(env, schema, aliases, specifier)
    decreases |env.Keys - aliases|, schema, 0
  {
    var parts := schema.parts;
    PartsCompose(env, schema, |parts|, aliases, specifier);
    PartsComposeFresh(env, schema, aliases, specifier);
    forall i | 0 <= i < |parts| && parts[i].Inline?
      ensures specifier in Visited(env, parts[i].schema, aliases).composes <==>
                ComposesFresh(env, parts[i].schema, aliases, specifier)
    {
      ComposedFresh(env, parts[i].schema, aliases, specifier);
    }
    forall i | 0 <= i < |parts|
      ensures PartComposes(env, schema, i, aliases, specifier) <==>
                || (schema.IntersectOf? && parts[i] == Composed(specifier))
                || (parts[i].Inline? && ComposesFresh(env, parts[i].schema, aliases, specifier))
    {
    }
  }

  /**
   The composed packages are exactly those that an intersection in the schema names: through
   refinements, inline parts and names, however these refer to each other.
   */
  lemma ComposedExactly(env: Aliases, schema: Schema, specifier: string)
    ensures specifier in Walked(env, schema).composes <==>
              exists x :: Met(env, schema, x) && x.IntersectOf? && Composed(specifier) in x.parts
  {
    ComposedFresh(env, schema, {}, specifier);
    forall x ensures Met(env, schema, x) <==> MetFresh(env, schema, {}, x) {
      MetIffFresh(env, schema, x);
    }
    assert forall x :: Composes(x, specifier) <==> x.IntersectOf? && Composed(specifier) in x.parts;
  }

  // ---------------------------------------------------------------- reports

  /** The walk can go on from the expression, or collect its keys: nothing in it itself calls for a report. */
  predicate Walkable(env: Aliases, x: Schema) {
    match x
    case ObjectOf(properties) => forall p :: p in properties ==> !p.Unplain?
    case IntersectOf(parts) => forall p :: p in parts ==> !p.OtherPart?
    case UnionOf(parts) => forall p :: p in parts ==> p.Inline?
    case Refined(base) => IsCall(base)
    case Named(a) => a in env
    case ArraySchema(_) => false
    case OtherCall => false
    case NotACall => false
  }

  /** Some name of `aliases` is met again, or a name is met inside what it stands for. */
  predicate Loops(env: Aliases, schema: Schema, aliases: set<Alias>)
    decreases |env.Keys - aliases|, schema
  {
    match schema
    case IntersectOf(parts) => exists i :: 0 <= i < |parts| && parts[i].Inline? && Loops(env, parts[i].schema, aliases)
    case UnionOf(parts) => exists i :: 0 <= i < |parts| && parts[i].Inline? && Loops(env, parts[i].schema, aliases)
    case Refined(base) => IsCall(base) && Loops(env, base, aliases)
    case Named(a) =>
      a in aliases || (a in env && (SmallerRest(env, aliases, a); Loops(env, env[a], aliases + {a})))
    case _ => false
  }

  ghost predicate Seen(env: Aliases, schema: Schema, aliases: set<Alias>) {
    (forall x :: MetFresh(env, schema, aliases, x) ==> Walkable(env, x)) && !Loops(env, schema, aliases)
  }

  predicate Silent(c: Collected) {
    c.violations == []
  }

  lemma {:induction false} PlainPropertiesSilent(properties: seq<SchemaProperty>)
    ensures Silent(TopProperties(properties)) <==> forall p :: p in properties ==> !p.Unplain?
  {
    if properties != [] {
      var n := |properties| - 1;
      PlainPropertiesSilent(properties[..n]);
      assert properties == properties[..n] + [properties[n]];
    }
  }

  /** What an element of an intersection or union reports. */
  predicate PartSilent(env: Aliases, schema: Schema, i: nat, aliases: set<Alias>)
    requires (schema.IntersectOf? || schema.UnionOf?) && i < |schema.parts|
  {
    match schema.parts[i]
    case Inline(inner) => Silent(Visited(env, inner, aliases))
    case Composed(_) => schema.IntersectOf?
    case OtherPart => false
  }

  lemma {:induction false} PartsSilent(env: Aliases, schema: Schema, n: nat, aliases: set<Alias>)
    requires (schema.IntersectOf? || schema.UnionOf?) && n <= |schema.parts|
    ensures Silent(PartsVisited(env, schema, n, aliases)) <==>
              forall i :: 0 <= i < n ==> PartSilent(env, schema, i, aliases)
    decreases n
  {
    if n > 0 {
      PartsSilent(env, schema, n - 1, aliases);
      assert Silent(PartsVisited(env, schema, n, aliases)) <==>
             Silent(PartsVisited(env, schema, n - 1, aliases)) && PartSilent(env, schema, n - 1, aliases);
    }
  }

  /** All is seen below a schema with parts when its parts are fit and all is seen below the inline ones. */
  lemma PartsSeen(env: Aliases, schema: Schema, aliases: set<Alias>)
    requires schema.IntersectOf? || schema.UnionOf?
    ensures Seen(env, schema, aliases) <==>
              Walkable(env, schema) &&
              forall i :: 0 <= i < |schema.parts| && schema.parts[i].Inline? ==>
                  Seen(env, schema.parts[i].schema, aliases)
  {
    var parts := schema.parts;
    forall x
      ensures MetFresh(env, schema, aliases, x) <==>
                || x == schema
                || exists i :: 0 <= i < |parts| && parts[i].Inline? && MetFresh(env, parts[i].schema, aliases, x)
    {
    }
    assert MetFresh(env, schema, aliases, schema);
  }

  lemma {:induction false} SilentIffSeen(env: Aliases, schema: Schema, aliases: set<Alias>)
    ensures Silent(Visited(env, schema, aliases)) <==> Seen(env, schema, aliases)
    decreases |env.Keys - aliases|, schema
  {
    assert MetFresh(env, schema, aliases, schema);
    match schema
    case ObjectOf(properties) =>
      PlainPropertiesSilent(properties);
      assert forall x :: MetFresh(env, schema, aliases, x) <==> x == schema;
    case IntersectOf(parts) =>
      PartsSilentIffSeen(env, schema, aliases);
    case UnionOf(parts) =>
      PartsSilentIffSeen(env, schema, aliases);
    case Refined(base) =>
      if IsCall(base) {
        SilentIffSeen(env, base, aliases);
        assert forall x :: MetFresh(env, schema, aliases, x) <==> x == schema || MetFresh(env, base, aliases, x);
      }
    case Named(a) =>
      if a in env && a !in aliases {
        SmallerRest(env, aliases, a);
        SilentIffSeen(env, env[a], aliases + {a});
        assert forall x :: MetFresh(env, schema, aliases, x) <==>
               x == schema || MetFresh(env, env[a], aliases + {a}, x);
      }
    case ArraySchema(_) =>
    case OtherCall =>
    case NotACall =>
  }

  lemma {:induction false} PartsSilentIffSeen(env: Aliases, schema: Schema, aliases: set<Alias>)
    requires schema.IntersectOf? || schema.UnionOf?
    ensures Silent(Visited(env, schema, aliases)) <==> Seen(env, schema, aliases)
    decreases |env.Keys - aliases|, schema, 0
  {
    var parts := schema.parts;
    PartsSilent(env, schema, |parts|, aliases);
    PartsSeen(env, schema, aliases);
    forall i | 0 <= i < |parts| && parts[i].Inline?
      ensures Silent(Visited(env, parts[i].schema, aliases)) <==> Seen(env, parts[i].schema, aliases)
    {
      SilentIffSeen(env, parts[i].schema, aliases);
    }
    forall i | 0 <= i < |parts|
      ensures PartSilent(env, schema, i, aliases) <==>
                if parts[i].Inline? then Seen(env, parts[i].schema, aliases)
                else parts[i].Composed? && schema.IntersectOf?
    {
    }
    assert Walkable(env, schema) <==>
           forall i :: 0 <= i < |parts| && !parts[i].Inline? ==> parts[i].Composed? && schema.IntersectOf?;
  }

  // ---------------------------------------------------------------- names inside themselves

  ghost predicate InsideItself(env: Aliases, schema: Schema, a: Alias) {
    a in env && Met(env, schema, Named(a)) && Met(env, env[a], Named(a))
  }

  /** What is met below an expression that is met, is met. */
  lemma {:induction false} MetThrough(env: Aliases, schema: Schema, x: Schema, y: Schema, depth: nat, more: nat)
    requires MetWithin(env, schema, x, depth) && MetWithin(env, x, y, more)
    ensures MetWithin(env, schema, y, depth + more)
    decreases depth, schema
  {
    if schema == x {
      MetDeeper(env, schema, y, more, depth + more);
    } else {
      match schema
      case IntersectOf(parts) =>
        var i :| 0 <= i < |parts| && parts[i].Inline? && MetWithin(env, parts[i].schema, x, depth);
        MetThrough(env, parts[i].schema, x, y, depth, more);
      case UnionOf(parts) =>
        var i :| 0 <= i < |parts| && parts[i].Inline? && MetWithin(env, parts[i].schema, x, depth);
        MetThrough(env, parts[i].schema, x, y, depth, more);
      case Refined(base) =>
        MetThrough(env, base, x, y, depth, more);
      case Named(a) =>
        MetThrough(env, env[a], x, y, depth - 1, more);
    }
  }

  lemma {:induction false} MetDeeper(env: Aliases, schema: Schema, x: Schema, depth: nat, more: nat)
    requires MetWithin(env, schema, x, depth) && depth <= more
    ensures MetWithin(env, schema, x, more)
    decreases depth, schema
  {
    if schema != x {
      match schema
      case IntersectOf(parts) =>
        var i :| 0 <= i < |parts| && parts[i].Inline? && MetWithin(env, parts[i].schema, x, depth);
        MetDeeper(env, parts[i].schema, x, depth, more);
      case UnionOf(parts) =>
        var i :| 0 <= i < |parts| && parts[i].Inline? && MetWithin(env, parts[i].schema, x, depth);
        MetDeeper(env, parts[i].schema, x, depth, more);
      case Refined(base) =>
        MetDeeper(env, base, x, depth, more);
      case Named(a) =>
        MetDeeper(env, env[a], x, depth - 1, more - 1);
    }
  }

  lemma MetTrans(env: Aliases, schema: Schema, x: Schema, y: Schema)
    requires Met(env, schema, x) && Met(env, x, y)
    ensures Met(env, schema, y)
  {
    var depth: nat :| MetWithin(env, schema, x, depth);
    var more: nat :| MetWithin(env, x, y, more);
    MetThrough(env, schema, x, y, depth, more);
  }

  lemma MetPart(env: Aliases, schema: Schema, x: Schema, y: Schema)
    requires Met(env, x, y)
    requires match schema
             case IntersectOf(parts) => exists i :: 0 <= i < |parts| && parts[i].Inline? && parts[i].schema == x
             case UnionOf(parts) => exists i :: 0 <= i < |parts| && parts[i].Inline? && parts[i].schema == x
             case Refined(base) => IsCall(base) && base == x
             case Named(a) => a in env && env[a] == x
             case _ => false
    ensures Met(env, schema, y)
  {
    assert MetWithin(env, x, x, 0);
    assert MetWithin(env, schema, x, 1);
    MetTrans(env, schema, x, y);
  }

  /** A loop is a name of `aliases` met again, or a name met inside itself. */
  lemma {:induction false} LoopFound(env: Aliases, schema: Schema, aliases: set<Alias>)
    requires Loops(env, schema, aliases)
    ensures (exists a :: a in aliases && Met(env, schema, Named(a))) || exists a :: InsideItself(env, schema, a)
    decreases |env.Keys - aliases|, schema
  {
    match schema
    case IntersectOf(parts) =>
      var i :| 0 <= i < |parts| && parts[i].Inline? && Loops(env, parts[i].schema, aliases);
      LoopFound(env, parts[i].schema, aliases);
      LoopLifts(env, schema, parts[i].schema, aliases);
    case UnionOf(parts) =>
      var i :| 0 <= i < |parts| && parts[i].Inline? && Loops(env, parts[i].schema, aliases);
      LoopFound(env, parts[i].schema, aliases);
      LoopLifts(env, schema, parts[i].schema, aliases);
    case Refined(base) =>
      LoopFound(env, base, aliases);
      LoopLifts(env, schema, base, aliases);
    case Named(a) =>
      assert MetWithin(env, schema, Named(a), 0);
      if a !in aliases {
        SmallerRest(env, aliases, a);
        LoopFound(env, env[a], aliases + {a});
        if Met(env, env[a], Named(a)) {
          assert InsideItself(env, schema, a);
        } else {
          LoopLifts(env, schema, env[a], aliases);
        }
      }
  }

  lemma LoopLifts(env: Aliases, schema: Schema, x: Schema, aliases: set<Alias>)
    requires (exists a :: a in aliases && Met(env, x, Named(a))) || exists a :: InsideItself(env, x, a)
    requires match schema
             case IntersectOf(parts) => exists i :: 0 <= i < |parts| && parts[i].Inline? && parts[i].schema == x
             case UnionOf(parts) => exists i :: 0 <= i < |parts| && parts[i].Inline? && parts[i].schema == x
             case Refined(base) => IsCall(base) && base == x
             case Named(a) => a in env && env[a] == x
             case _ => false
    ensures (exists a :: a in aliases && Met(env, schema, Named(a))) || exists a :: InsideItself(env, schema, a)
  {
    if a :| a in aliases && Met(env, x, Named(a)) {
      MetPart(env, schema, x, Named(a));
    } else {
      var a :| InsideItself(env, x, a);
      MetPart(env, schema, x, Named(a));
      assert InsideItself(env, schema, a);
    }
  }

  /** Without a loop, no met expression has one, inside all the names on the way to it. */
  lemma {:induction false} NoLoopBelow(env: Aliases, schema: Schema, aliases: set<Alias>, x: Schema, depth: nat)
    returns (within: set<Alias>)
    requires !Loops(env, schema, aliases) && MetWithin(env, schema, x, depth)
    ensures aliases <= within && !Loops(env, x, within)
    decreases depth, schema
  {
    within := aliases;
    if schema != x {
      match schema
      case IntersectOf(parts) =>
        var i :| 0 <= i < |parts| && parts[i].Inline? && MetWithin(env, parts[i].schema, x, depth);
        within := NoLoopBelow(env, parts[i].schema, aliases, x, depth);
      case UnionOf(parts) =>
        var i :| 0 <= i < |parts| && parts[i].Inline? && MetWithin(env, parts[i].schema, x, depth);
        within := NoLoopBelow(env, parts[i].schema, aliases, x, depth);
      case Refined(base) =>
        within := NoLoopBelow(env, base, aliases, x, depth);
      case Named(a) =>
        SmallerRest(env, aliases, a);
        within := NoLoopBelow(env, env[a], aliases + {a}, x, depth - 1);
    }
  }

  lemma LoopsIffInsideItself(env: Aliases, schema: Schema)
    ensures Loops(env, schema, {}) <==> exists a :: InsideItself(env, schema, a)
  {
    if Loops(env, schema, {}) {
      LoopFound(env, schema, {});
    } else if a :| InsideItself(env, schema, a) {
      var depth: nat :| MetWithin(env, schema, Named(a), depth);
      var more: nat :| MetWithin(env, env[a], Named(a), more);
      var outer := NoLoopBelow(env, schema, {}, Named(a), depth);
      SmallerRest(env, outer, a);
      var inner := NoLoopBelow(env, env[a], outer + {a}, Named(a), more);
    }
  }

  /**
   The walk reports nothing if and only if it can see through everything it meets: there is no
   property without a plain key, no foreign part, no name that stands for nothing, no chain
   without a base call, nothing but calls and names, and no name inside itself.
   */
  lemma SilentExactly(env: Aliases, schema: Schema)
    ensures Walked(env, schema).violations == [] <==>
              && (forall x :: Met(env, schema, x) ==> Walkable(env, x))
              && (forall a :: a in env && Met(env, schema, Named(a)) ==> !Met(env, env[a], Named(a)))
  {
    SilentIffSeen(env, schema, {});
    LoopsIffInsideItself(env, schema);
    forall x ensures Met(env, schema, x) <==> MetFresh(env, schema, {}, x) {
      MetIffFresh(env, schema, x);
    }
    if a :| a in env && Met(env, schema, Named(a)) && Met(env, env[a], Named(a)) {
      assert InsideItself(env, schema, a);
    } else {
      forall a ensures !InsideItself(env, schema, a) {
      }
    }
  }
}
