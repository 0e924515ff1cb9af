/**
 The keys of a schema together with those of the packages it composes, and the check of all of
 them against the declared type.

 A schema may intersect the schema of another package, which may do so in turn; packages that
 compose one another are folded in once.
 */
module ComposedKeys {
  import opened KeyPaths
  import opened Reachability
  import opened SchemaWalk
  import opened Sorting
  import opened TypeExactness
  import opened TypeLookup

  /** What the walk of a package's schema collected; both lists are empty for a package without one. */
  datatype Entry = Entry(keys: seq<string>, composes: seq<string>)

  /** The collected packages by name. */
  type Catalog = map<string, Entry>

  /** A package that was not collected composes nothing. */
  function Composes(catalog: Catalog, name: string): seq<string> {
    if name in catalog then catalog[name].composes else []
  }

  /** Some walk along the composed schemas leads from one name to the other. */
  ghost predicate ComposesInTurn(catalog: Catalog, from: string, to: string) {
    Reaches(n => Composes(catalog, n), from, to)
  }

  /** A package whose keys belong to the schema of `root`. */
  ghost predicate Folded(catalog: Catalog, root: string, name: string) {
    name in catalog && ComposesInTurn(catalog, root, name)
  }

  /** A name that the schema of `root` composes, and that no package has. */
  ghost predicate Uncollected(catalog: Catalog, root: string, name: string) {
    name !in catalog && ComposesInTurn(catalog, root, name)
  }

  function KeysAt(catalog: Catalog, name: string): seq<string> {
    if name in catalog then catalog[name].keys else []
  }

  /** The keys of some packages, one package after the other. */
  function KeysOf(catalog: Catalog, names: seq<string>): seq<string> {
    if names == [] then []
    else KeysOf(catalog, names[..|names| - 1]) + KeysAt(catalog, names[|names| - 1])
  }

  lemma {:induction false} KeysOfJoined(catalog: Catalog, xs: seq<string>, ys: seq<string>)
    ensures KeysOf(catalog, xs + ys) == KeysOf(catalog, xs) + KeysOf(catalog, ys)
  {
    if ys == [] {
      assert xs + ys == xs;
    } else {
      var n := |ys| - 1;
      KeysOfJoined(catalog, xs, ys[..n]);
      assert (xs + ys)[..|xs + ys| - 1] == xs + ys[..n];
      Regroup(KeysOf(catalog, xs), KeysOf(catalog, ys[..n]), KeysAt(catalog, ys[n]));
    }
  }

  lemma Regroup(x: seq<string>, y: seq<string>, z: seq<string>)
    ensures (x + y) + z == x + (y + z)
  {
  }

  lemma KeysOfOne(catalog: Catalog, name: string)
    ensures KeysOf(catalog, [name]) == KeysAt(catalog, name)
  {
    assert [name][..0] == [];
  }

  lemma {:induction false} KeyOfSome(catalog: Catalog, names: seq<string>, key: string)
    ensures key in KeysOf(catalog, names) <==> exists name :: name in names && key in KeysAt(catalog, name)
  {
    if names != [] {
      var n := |names| - 1;
      KeyOfSome(catalog, names[..n], key);
      assert names == names[..n] + [names[n]];
    }
  }

  // ---------------------------------------------------------------- the fold

  /** These packages were newly folded in below `name`, each once. */
  ghost predicate NewlyFolded(
    catalog: Catalog, name: string, before: set<string>, after: set<string>, folded: seq<string>) {
    && NoDuplicates(folded) && after == before + SetOf(folded)
    && forall p :: p in folded ==> p !in before && Folded(catalog, name, p)
  }

  /** A composed name was folded in, or is listed when there is no such package. */
  ghost predicate Handled(catalog: Catalog, seen: set<string>, uncollected: seq<string>, name: string) {
    if name in catalog then name in seen else name in uncollected
  }

  ghost predicate AllHandled(
    catalog: Catalog, seen: set<string>, uncollected: seq<string>, folded: seq<string>, except: set<string>) {
    forall a, b :: a in folded && a !in except && b in Composes(catalog, a) ==>
      Handled(catalog, seen, uncollected, b)
  }

  /** Names were added to the list, all of them composed below `name` and no packages. */
  ghost predicate Listed(catalog: Catalog, name: string, before: seq<string>, after: seq<string>) {
    before <= after && forall u :: u in after[|before|..] ==> Uncollected(catalog, name, u)
  }

  lemma FoldsItself(catalog: Catalog, name: string, seen: set<string>)
    requires name in catalog && name !in seen
    ensures NewlyFolded(catalog, name, seen, seen + {name}, [name])
    ensures KeysOf(catalog, [name]) == catalog[name].keys
  {
    ReachesSelf(n => Composes(catalog, n), name);
    KeysOfOne(catalog, name);
    assert SetOf([name]) == {name};
  }

  /** What is folded in below a composed package is folded in below the package. */
  lemma FoldsBelow(
    catalog: Catalog, name: string, below: string, before: set<string>, middle: set<string>, after: set<string>,
    folded: seq<string>, more: seq<string>)
    requires below in Composes(catalog, name)
    requires NewlyFolded(catalog, name, before, middle, folded) && NewlyFolded(catalog, below, middle, after, more)
    ensures NewlyFolded(catalog, name, before, after, folded + more)
  {
    forall p | p in folded + more ensures p !in before && Folded(catalog, name, p) {
      if p in more {
        ReachesThrough(n => Composes(catalog, n), name, below, p);
      }
    }
    forall p | p in folded ensures p !in more {
      assert p in SetOf(folded);
    }
    JoinedDistinct(folded, more);
    assert SetOf(folded + more) == SetOf(folded) + SetOf(more);
  }

  lemma JoinedDistinct(xs: seq<string>, ys: seq<string>)
    requires NoDuplicates(xs) && NoDuplicates(ys) && forall x :: x in xs ==> x !in ys
    ensures NoDuplicates(xs + ys)
  {
    forall i, j | 0 <= i < |xs| && 0 <= j < |ys| ensures xs[i] != ys[j] {
      assert xs[i] in xs;
    }
  }

  lemma ListsBelow(
    catalog: Catalog, name: string, below: string, before: seq<string>, middle: seq<string>, after: seq<string>)
    requires below in Composes(catalog, name)
    requires Listed(catalog, name, before, middle) && Listed(catalog, below, middle, after)
    ensures Listed(catalog, name, before, after)
  {
    AddedTwice(before, middle, after);
    forall u | u in after[|before|..] ensures Uncollected(catalog, name, u) {
      if u in after[|middle|..] {
        ReachesThrough(n => Composes(catalog, n), name, below, u);
      } else {
        assert u in middle[|before|..];
      }
    }
  }

  lemma AddedTwice(before: seq<string>, middle: seq<string>, after: seq<string>)
    requires before <= middle <= after
    ensures before <= after && after[|before|..] == middle[|before|..] + after[|middle|..]
  {
  }

  lemma ListsItself(catalog: Catalog, name: string, below: string, before: seq<string>, middle: seq<string>)
    requires below in Composes(catalog, name) && below !in catalog && Listed(catalog, name, before, middle)
    ensures Listed(catalog, name, before, middle + [below])
  {
    ReachesSelf(n => Composes(catalog, n), below);
    ReachesThrough(n => Composes(catalog, n), name, below, below);
    assert (middle + [below])[|before|..] == middle[|before|..] + [below];
  }

  lemma FewerUnseen(catalog: Catalog, before: set<string>, after: set<string>, name: string)
    requires before <= after && name in after - before && name in catalog
    ensures |catalog.Keys - after| < |catalog.Keys - before|
  {
    assert catalog.Keys - before == (catalog.Keys - after) + (catalog.Keys * after - before);
    assert name in catalog.Keys * after - before;
  }

  /** The first `n` names that the package composes have been handled, and all that these compose. */
  ghost predicate Folding(
    catalog: Catalog, name: string, before: set<string>, seen: set<string>, listed: seq<string>,
    uncollected: seq<string>, folded: seq<string>, n: nat) {
    && n <= |Composes(catalog, name)|
    && name in seen && name !in before && NewlyFolded(catalog, name, before, seen, folded)
    && Listed(catalog, name, listed, uncollected)
    && AllHandled(catalog, seen, uncollected, folded, {name})
    && forall i :: 0 <= i < n ==> Handled(catalog, seen, uncollected, Composes(catalog, name)[i])
  }

  lemma StillHandled(
    catalog: Catalog, seen: set<string>, uncollected: seq<string>, more: set<string>, longer: seq<string>, b: string)
    requires Handled(catalog, seen, uncollected, b) && seen <= more && uncollected <= longer
    ensures Handled(catalog, more, longer, b)
  {
  }

  lemma StillAllHandled(
    catalog: Catalog, seen: set<string>, uncollected: seq<string>, more: set<string>, longer: seq<string>,
    folded: seq<string>, except: set<string>)
    requires AllHandled(catalog, seen, uncollected, folded, except) && seen <= more && uncollected <= longer
    ensures AllHandled(catalog, more, longer, folded, except)
  {
    forall a, b | a in folded && a !in except && b in Composes(catalog, a) ensures Handled(catalog, more, longer, b) {
      StillHandled(catalog, seen, uncollected, more, longer, b);
    }
  }

  lemma StillFirstHandled(
    catalog: Catalog, seen: set<string>, uncollected: seq<string>, more: set<string>, longer: seq<string>,
    composes: seq<string>, n: nat)
    requires n <= |composes| && seen <= more && uncollected <= longer
    requires forall i :: 0 <= i < n ==> Handled(catalog, seen, uncollected, composes[i])
    ensures forall i :: 0 <= i < n ==> Handled(catalog, more, longer, composes[i])
  {
    forall i | 0 <= i < n ensures Handled(catalog, more, longer, composes[i]) {
      StillHandled(catalog, seen, uncollected, more, longer, composes[i]);
    }
  }

  lemma FoldsMore(
    catalog: Catalog, name: string, n: nat, before: set<string>, middle: set<string>, after: set<string>,
    listed: seq<string>, listedThen: seq<string>, uncollected: seq<string>, folded: seq<string>, below: seq<string>)
    requires Folding(catalog, name, before, middle, listed, listedThen, folded, n) && n < |Composes(catalog, name)|
    requires var child := Composes(catalog, name)[n];
             && child in after && NewlyFolded(catalog, child, middle, after, below)
             && Listed(catalog, child, listedThen, uncollected) && child in catalog
    requires AllHandled(catalog, after, uncollected, below, {})
    ensures Folding(catalog, name, before, after, listed, uncollected, folded + below, n + 1)
  {
    var composes := Composes(catalog, name);
    FoldsBelow(catalog, name, composes[n], before, middle, after, folded, below);
    ListsBelow(catalog, name, composes[n], listed, listedThen, uncollected);
    StillAllHandled(catalog, middle, listedThen, after, uncollected, folded, {name});
    StillFirstHandled(catalog, middle, listedThen, after, uncollected, composes, n);
  }

  lemma ListsMore(
    catalog: Catalog, name: string, n: nat, before: set<string>, seen: set<string>, listed: seq<string>,
    uncollected: seq<string>, folded: seq<string>)
    requires Folding(catalog, name, before, seen, listed, uncollected, folded, n) && n < |Composes(catalog, name)|
    requires Composes(catalog, name)[n] !in catalog
    ensures Folding(
              catalog, name, before, seen, listed, uncollected + [Composes(catalog, name)[n]], folded, n + 1)
  {
    var composes := Composes(catalog, name);
    var longer := uncollected + [composes[n]];
    ListsItself(catalog, name, composes[n], listed, uncollected);
    StillAllHandled(catalog, seen, uncollected, seen, longer, folded, {name});
    StillFirstHandled(catalog, seen, uncollected, seen, longer, composes, n);
  }

  lemma AllFolded(
    catalog: Catalog, name: string, before: set<string>, seen: set<string>, listed: seq<string>,
    uncollected: seq<string>, folded: seq<string>)
    requires Folding(catalog, name, before, seen, listed, uncollected, folded, |Composes(catalog, name)|)
    ensures AllHandled(catalog, seen, uncollected, folded, {})
  {
    forall a, b | a in folded && b in Composes(catalog, a) ensures Handled(catalog, seen, uncollected, b) {
      if a == name {
        var i :| 0 <= i < |Composes(catalog, name)| && Composes(catalog, name)[i] == b;
      }
    }
  }

  class ComposedFold {
    const catalog: Catalog
    var seen: set<string>
    var uncollected: seq<string>

    constructor (catalog: Catalog)
      ensures this.catalog == catalog && seen == {} && uncollected == []
    {
      this.catalog := catalog;
      seen, uncollected := {}, [];
    }

    /** The keys of a package and of all that it composes and has not been seen yet. */
    method FoldComposed(name: string) returns (keys: seq<string>, ghost folded: seq<string>)
      requires name in catalog
      modifies this
      ensures name in seen && NewlyFolded(catalog, name, old(seen), seen, folded)
      ensures keys == KeysOf(catalog, folded)
      ensures Listed(catalog, name, old(uncollected), uncollected)
      ensures AllHandled(catalog, seen, uncollected, folded, {})
      decreases |catalog.Keys - seen|
    {
      if name in seen {
        keys, folded := [], [];
        return;
      }
      FoldsItself(catalog, name, seen);
      FewerUnseen(catalog, seen, seen + {name}, name);
      seen := seen + {name};
      folded := [name];
      keys := catalog[name].keys;
      var composes := catalog[name].composes;
      for k := 0 to |composes|
        invariant |catalog.Keys - seen| < |catalog.Keys - old(seen)|
        invariant keys == KeysOf(catalog, folded)
        invariant Folding(catalog, name, old(seen), seen, old(uncollected), uncollected, folded, k)
      {
        ghost var before, listed := seen, uncollected;
        if composes[k] in catalog {
          var more;
          ghost var below;
          more, below := FoldComposed(composes[k]);
          FoldsMore(catalog, name, k, old(seen), before, seen, old(uncollected), listed, uncollected, folded, below);
          KeysOfJoined(catalog, folded, below);
          FewerUnseen(catalog, old(seen), seen, name);
          keys, folded := keys + more, folded + below;
        } else {
          uncollected := uncollected + [composes[k]];
          ListsMore(catalog, name, k, old(seen), seen, old(uncollected), listed, folded);
        }
      }
      AllFolded(catalog, name, old(seen), seen, old(uncollected), uncollected, folded);
    }
  }

  /** Folding from the start gives every package that is composed, and lists every other composed name. */
  lemma FoldedAll(catalog: Catalog, root: string, seen: set<string>, uncollected: seq<string>, folded: seq<string>)
    requires root in seen && NewlyFolded(catalog, root, {}, seen, folded) && Listed(catalog, root, [], uncollected)
    requires AllHandled(catalog, seen, uncollected, folded, {})
    ensures forall p :: p in folded <==> Folded(catalog, root, p)
    ensures forall u :: u in uncollected <==> Uncollected(catalog, root, u)
  {
    var next := n => Composes(catalog, n);
    var names := SetOf(folded) + SetOf(uncollected);
    assert uncollected[0..] == uncollected;
    assert forall u :: u in uncollected ==> Uncollected(catalog, root, u);
    forall a, b | a in names && b in next(a) ensures b in names {
      if a in folded {
        assert Handled(catalog, seen, uncollected, b);
      }
    }
    forall p | ComposesInTurn(catalog, root, p) ensures p in names {
      ClosedHoldsReached(next, names, root, p);
    }
  }

  /**
   What is composed is the least set of names that holds the root and, with each collected package,
   every name its schema composes.
   */
  lemma ComposedIsLeastClosed(catalog: Catalog, root: string, names: set<string>)
    requires forall n :: n in names <==> ComposesInTurn(catalog, root, n)
    ensures root in names && forall a, b :: a in names && a in catalog && b in catalog[a].composes ==> b in names
    ensures forall other: set<string> ::
              && root in other
              && (forall a, b :: a in other && a in catalog && b in catalog[a].composes ==> b in other) ==>
              names <= other
  {
    ReachedIsLeastClosed(n => Composes(catalog, n), root, names);
    forall a, b | a in names && a in catalog && b in catalog[a].composes ensures b in names {
      assert b in Composes(catalog, a);
    }
    forall other: set<string>
      | root in other && (forall a, b :: a in other && a in catalog && b in catalog[a].composes ==> b in other)
      ensures names <= other
    {
      assert ClosedUnder(n => Composes(catalog, n), other);
    }
  }

  // ---------------------------------------------------------------- the presence check

  /** The key is missing from the declared type. */
  predicate MissingKey(w: World, id: DeclId, fuel: nat, key: string)
    requires id in w.decls
  {
    var walk := LookupDecl(w, id, Parse(key), {}, fuel);
    walk.Done? && walk.result.Missing?
  }

  /** A package that is folded in has a key that the declared type lacks. */
  ghost predicate ReportedBelow(catalog: Catalog, root: string, w: World, id: DeclId, fuel: nat, key: string)
    requires id in w.decls
  {
    MissingKey(w, id, fuel, key) && exists p :: Folded(catalog, root, p) && key in catalog[p].keys
  }

  /** Check the keys of a schema and of all it composes against the declared type. */
  method CheckKeys(catalog: Catalog, root: string, w: World, id: DeclId, fuel: nat)
    returns (reported: seq<string>, uncollected: seq<string>)
    requires root in catalog && id in w.decls
    ensures forall key :: key in reported <==> ReportedBelow(catalog, root, w, id, fuel, key)
    ensures forall name :: name in uncollected <==> Uncollected(catalog, root, name)
  {
    var fold := new ComposedFold(catalog);
    var keys;
    ghost var folded;
    keys, folded := fold.FoldComposed(root);
    uncollected := fold.uncollected;
    FoldedAll(catalog, root, fold.seen, uncollected, folded);
    reported := [];
    for k := 0 to |keys|
      invariant forall key :: key in reported <==> key in keys[..k] && MissingKey(w, id, fuel, key)
    {
      if MissingKey(w, id, fuel, keys[k]) {
        reported := reported + [keys[k]];
      }
    }
    forall key ensures key in reported <==> ReportedBelow(catalog, root, w, id, fuel, key) {
      KeyOfSome(catalog, folded, key);
    }
  }

  // ---------------------------------------------------------------- what a report says about the schemas

  datatype PackageSchema = PackageSchema(env: Aliases, schema: Schema)

  type Schemas = map<string, PackageSchema>

  function CatalogOf(schemas: Schemas): Catalog {
    map p | p in schemas ::
      Entry(Walked(schemas[p].env, schemas[p].schema).keys, Walked(schemas[p].env, schemas[p].schema).composes)
  }

  /** The key spells a path that the schema of some composed package declares. */
  ghost predicate DeclaredBelow(schemas: Schemas, root: string, key: string) {
    exists p :: p in schemas && Folded(CatalogOf(schemas), root, p) && DeclaresKey(schemas[p], key)
  }

  ghost predicate DeclaresKey(s: PackageSchema, key: string) {
    InSchema(s.env, s.schema, Parse(key)) && Print(Parse(key)) == key
  }

  /**
   Over clean schemas and plain types, where the path of the key runs through no declaration twice
   with the same number of steps left: a key is reported exactly when the schema itself, or one that
   it composes through any number of packages, declares it, and no reading of the type admits it.
   */
  lemma ReportedIffDeclaredAndAbsent(schemas: Schemas, root: string, w: World, id: DeclId, fuel: nat, key: string)
    requires root in schemas && PlainWorld(w) && InterfaceBases(w) && id in w.decls
    requires forall p :: p in schemas ==> CleanSchema(schemas[p].env, schemas[p].schema)
    requires DeclLine(w, id, Parse(key), fuel).Line? && NoDuplicates(DeclLine(w, id, Parse(key), fuel).entries)
    ensures ReportedBelow(CatalogOf(schemas), root, w, id, fuel, key) <==>
              DeclaredBelow(schemas, root, key) && !MayDecl(w, id, Parse(key))
  {
    var catalog := CatalogOf(schemas);
    forall p | p in schemas
      ensures key in catalog[p].keys && MissingKey(w, id, fuel, key) <==>
              DeclaresKey(schemas[p], key) && !MayDecl(w, id, Parse(key))
    {
      ReportedIffAbsent(schemas[p].env, schemas[p].schema, w, id, fuel, key);
    }
  }
}
