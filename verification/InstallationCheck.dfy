/** The check that no on-demand provider is part of the installation. */
module InstallationCheck {
  import opened Outcomes
  import opened Packages
  import opened Sorting
  import opened Reachability

  /** A manifest's runtime sections, in the order they are read. */
  datatype Manifest = Manifest(
    name: Package, dependencies: seq<Package>, optionalDependencies: seq<Package>, peerDependencies: seq<Package>)

  datatype CatalogError =
    | NotDistinct
    | DuplicatePackage(name: Package)
    | NoInstallation
    | MustNotBeInstalled(name: Package)

  /** What each known package needs at run time. */
  type Manifests = map<Package, seq<Package>>

  const INSTALLATION := Package("@deepseek-ai/dsh")

  /** An unknown package needs nothing. */
  function Runtime(manifests: Manifests, name: Package): seq<Package> {
    if name in manifests then manifests[name] else []
  }

  ghost predicate Needs(manifests: Manifests, from: Package, to: Package) {
    Reaches(n => Runtime(manifests, n), from, to)
  }

  // ---------------------------------------------------------------- reading the manifests

  function RuntimeOf(m: Manifest): seq<Package> {
    m.dependencies + m.optionalDependencies + m.peerDependencies
  }

  function NamesOf(files: seq<Manifest>): seq<Package> {
    seq(|files|, i requires 0 <= i < |files| => files[i].name)
  }

  /** The map of the manifests, when no name occurs twice. */
  method ReadManifests(files: seq<Manifest>) returns (r: Result<Manifests, CatalogError>)
    ensures r.Success? <==> NoDuplicates(NamesOf(files))
    ensures r.Success? ==> forall n :: n in r.value <==> n in NamesOf(files)
    ensures r.Success? ==> forall i :: 0 <= i < |files| ==>
              files[i].name in r.value && r.value[files[i].name] == RuntimeOf(files[i])
    ensures r.Success? ==> forall n :: n !in NamesOf(files) ==> Runtime(r.value, n) == []
    ensures r.Success? ==> forall i, n :: 0 <= i < |files| ==>
              (n in Runtime(r.value, files[i].name) <==>
                 n in files[i].dependencies || n in files[i].optionalDependencies || n in files[i].peerDependencies)
    ensures r.Failure? ==>
              && r.error.DuplicatePackage?
              && exists i, j :: 0 <= i < j < |files| && files[i].name == files[j].name == r.error.name
  {
    var manifests: Manifests := map[];
    for k := 0 to |files|
      invariant forall n :: n in manifests <==> exists i :: 0 <= i < k && files[i].name == n
      invariant forall i, j :: 0 <= i < j < k ==> files[i].name != files[j].name
      invariant forall i :: 0 <= i < k ==> manifests[files[i].name] == RuntimeOf(files[i])
    {
      if files[k].name in manifests {
        assert NamesOf(files)[k] == files[k].name;
        ghost var i :| 0 <= i < k && files[i].name == files[k].name;
        assert NamesOf(files)[i] == files[k].name;
        return Failure(DuplicatePackage(files[k].name));
      }
      manifests := manifests[files[k].name := RuntimeOf(files[k])];
    }
    forall n ensures n in manifests <==> n in NamesOf(files) {
      if n in manifests {
        var i :| 0 <= i < |files| && files[i].name == n;
        assert NamesOf(files)[i] == n;
      }
    }
    return Success(manifests);
  }

  // ---------------------------------------------------------------- the search

  class Check {
    const manifests: Manifests
    const onDemand: seq<Package>
    var visited: set<Package>

    constructor (manifests: Manifests, onDemand: seq<Package>)
      ensures this.manifests == manifests && this.onDemand == onDemand && visited == {}
    {
      this.manifests := manifests;
      this.onDemand := onDemand;
      visited := {};
    }

    /** Everything these names need has been visited. */
    ghost predicate Searched(names: set<Package>)
      reads this
    {
      forall a, b :: a in names && b in Runtime(manifests, a) ==> b in visited
    }

    /** A name was newly visited without harm: it is needed here and is no on-demand provider. */
    ghost predicate Harmless(from: Package, n: Package)
      reads this
    {
      n !in onDemand && Needs(manifests, from, n)
    }

    /**
     Visit a package and all it needs. A failure names an on-demand provider that is needed;
     success leaves everything newly visited searched, needed and harmless.
     */
    method CheckInstallation(name: Package) returns (r: Result<(), Package>)
      modifies this
      ensures r.Failure? ==> r.error in onDemand && Needs(manifests, name, r.error)
      ensures r.Success? ==> old(visited) <= visited && name in visited
      ensures r.Success? ==> Searched(visited - old(visited))
      ensures r.Success? ==> forall n :: n in visited && n !in old(visited) ==> Harmless(name, n)
      decreases |manifests.Keys - visited|, 0
    {
      if name in visited {
        return Success(());
      }
      ReachesSelf(n => Runtime(manifests, n), name);
      visited := visited + {name};
      if name in onDemand {
        return Failure(name);
      }
      if name in manifests {
        assert manifests.Keys - old(visited) == (manifests.Keys - visited) + {name};
        r := CheckAll(name, manifests[name]);
      } else {
        r := Success(());
      }
    }

    method CheckAll(name: Package, dependencies: seq<Package>) returns (r: Result<(), Package>)
      requires forall d :: d in dependencies ==> d in Runtime(manifests, name)
      modifies this
      ensures r.Failure? ==> r.error in onDemand && Needs(manifests, name, r.error)
      ensures r.Success? ==> old(visited) <= visited && forall d :: d in dependencies ==> d in visited
      ensures r.Success? ==> Searched(visited - old(visited))
      ensures r.Success? ==> forall n :: n in visited && n !in old(visited) ==> Harmless(name, n)
      decreases |manifests.Keys - visited|, 1
    {
      for k := 0 to |dependencies|
        invariant old(visited) <= visited && forall i :: 0 <= i < k ==> dependencies[i] in visited
        invariant Searched(visited - old(visited))
        invariant forall n :: n in visited && n !in old(visited) ==> Harmless(name, n)
      {
        FewerUnvisited(manifests, old(visited), visited);
        ghost var before := visited;
        var one := CheckInstallation(dependencies[k]);
        if one.Failure? {
          ReachesThrough(n => Runtime(manifests, n), name, dependencies[k], one.error);
          return one;
        }
        NeededThrough(name, dependencies[k], visited - before);
      }
      r := Success(());
    }

    lemma NeededThrough(name: Package, dependency: Package, names: set<Package>)
      requires dependency in Runtime(manifests, name) && forall n :: n in names ==> Harmless(dependency, n)
      ensures forall n :: n in names ==> Harmless(name, n)
    {
      forall n | n in names ensures Harmless(name, n) {
        assert Harmless(dependency, n);
        ReachesThrough(k => Runtime(manifests, k), name, dependency, n);
      }
    }
  }

  lemma FewerUnvisited(manifests: Manifests, visited: set<Package>, more: set<Package>)
    requires visited <= more
    ensures |manifests.Keys - more| <= |manifests.Keys - visited|
  {
    assert manifests.Keys - visited == (manifests.Keys - more) + (manifests.Keys * more - visited);
  }

  /** No on-demand provider is needed by the installation. */
  ghost predicate InstallationClean(manifests: Manifests, onDemand: seq<Package>) {
    forall n :: n in onDemand ==> !Needs(manifests, INSTALLATION, n)
  }

  /**
   The admission check: it fails exactly when the list is empty or repeats a name, the
   installation's manifest is missing, or the installation needs an on-demand provider.
   */
  method AdmitCatalog(manifests: Manifests, onDemand: seq<Package>) returns (r: Result<(), CatalogError>)
    ensures r.Success? <==>
              && onDemand != [] && NoDuplicates(onDemand)
              && INSTALLATION in manifests && InstallationClean(manifests, onDemand)
    ensures r.Failure? ==>
              match r.error
              case NotDistinct => onDemand == [] || !NoDuplicates(onDemand)
              case NoInstallation => INSTALLATION !in manifests
              case MustNotBeInstalled(name) => name in onDemand && Needs(manifests, INSTALLATION, name)
              case DuplicatePackage(_) => false
  {
    DistinctIffSetSize(onDemand);
    if onDemand == [] || |SetOf(onDemand)| != |onDemand| {
      return Failure(NotDistinct);
    }
    if INSTALLATION !in manifests {
      return Failure(NoInstallation);
    }
    var check := new Check(manifests, onDemand);
    var searched := check.CheckInstallation(INSTALLATION);
    if searched.Failure? {
      return Failure(MustNotBeInstalled(searched.error));
    }
    NothingNeeded(manifests, onDemand, check.visited);
    return Success(());
  }

  /** A searched set without providers holds everything the installation needs. */
  lemma NothingNeeded(manifests: Manifests, onDemand: seq<Package>, visited: set<Package>)
    requires INSTALLATION in visited && forall n :: n in visited ==> n !in onDemand
    requires forall a, b :: a in visited && b in Runtime(manifests, a) ==> b in visited
    ensures InstallationClean(manifests, onDemand)
  {
    forall n | n in onDemand ensures !Needs(manifests, INSTALLATION, n) {
      if Needs(manifests, INSTALLATION, n) {
        ClosedHoldsReached(k => Runtime(manifests, k), visited, INSTALLATION, n);
      }
    }
  }
}
