/** Which published packages are reachable from the benchmark's target and still carry peers. */
module CandidateDiscovery {
  import opened Outcomes
  import opened Packages
  import opened Sorting
  import opened Reachability

  /** The dependency sections of a published manifest, in the order they are written. */
  datatype Manifest = Manifest(
    dependencies: seq<Package>,
    optionalDependencies: seq<Package>,
    peerDependencies: seq<Package>,
    optionalPeers: set<Package>)

  /** Published manifests by name and version, and the version each workspace package has. */
  datatype Registry = Registry(index: map<Package, map<string, Manifest>>, workspaceVersions: map<Package, string>)

  const TARGET := Package("@deepseek-ai/dsh")

  const CORDIS := Package("@deepseek-ai/cordis")

  function ManifestOf(r: Registry, name: Package): (m: Option<Manifest>)
    ensures m.Some? <==> name in r.workspaceVersions && name in r.index && r.workspaceVersions[name] in r.index[name]
    ensures m.Some? ==> m.value == r.index[name][r.workspaceVersions[name]]
  {
    if name in r.workspaceVersions && name in r.index && r.workspaceVersions[name] in r.index[name]
    then Some(r.index[name][r.workspaceVersions[name]])
    else None
  }

  predicate InOrder(a: Package, b: Package) {
    CodeUnitsAtMost(a.name, b.name)
  }

  lemma InOrderTotal()
    ensures TotalOrder(InOrder)
  {
    forall a, b ensures (InOrder(a, b) || InOrder(b, a)) && (InOrder(a, b) && InOrder(b, a) ==> a == b) {
      CodeUnitsTotal(a.name, b.name);
    }
    forall a, b, c | InOrder(a, b) && InOrder(b, c) ensures InOrder(a, c) {
      CodeUnitsTransitive(a.name, b.name, c.name);
    }
  }

  function Without(names: seq<Package>, dropped: set<Package>): seq<Package> {
    if names == [] then []
    else Without(names[..|names| - 1], dropped) + if names[|names| - 1] in dropped then [] else [names[|names| - 1]]
  }

  lemma {:induction false} WithoutMeans(names: seq<Package>, dropped: set<Package>, n: Package)
    ensures n in Without(names, dropped) <==> n in names && n !in dropped
  {
    if names != [] {
      var last := |names| - 1;
      WithoutMeans(names[..last], dropped, n);
      assert names == names[..last] + [names[last]];
    }
  }

  /** Spreading `more` over `names`: keys already there keep their place. */
  function Spread(names: seq<Package>, more: seq<Package>): seq<Package> {
    names + Without(more, SetOf(names))
  }

  /** The keys npm installs: every dependency, every optional one, and the peers not marked optional. */
  function InstalledKeys(m: Manifest): seq<Package> {
    StableSort(
      Spread(Spread(m.dependencies, m.optionalDependencies), Without(m.peerDependencies, m.optionalPeers)),
      InOrder)
  }

  lemma InstalledMeans(m: Manifest, n: Package)
    ensures n in InstalledKeys(m) <==>
              n in m.dependencies || n in m.optionalDependencies || (n in m.peerDependencies && n !in m.optionalPeers)
  {
    var required := Without(m.peerDependencies, m.optionalPeers);
    var own := Spread(m.dependencies, m.optionalDependencies);
    var keys := Spread(own, required);
    WithoutMeans(m.peerDependencies, m.optionalPeers, n);
    WithoutMeans(m.optionalDependencies, SetOf(m.dependencies), n);
    WithoutMeans(required, SetOf(own), n);
    SortPermutes(keys, InOrder);
    assert n in keys <==> n in multiset(keys);
    assert n in InstalledKeys(m) <==> n in multiset(InstalledKeys(m));
  }

  /** The packages with a published manifest among those that a package installs. */
  function Published(r: Registry, names: seq<Package>): seq<Package> {
    if names == [] then []
    else
      var last := names[|names| - 1];
      Published(r, names[..|names| - 1]) + if ManifestOf(r, last).Some? then [last] else []
  }

  lemma {:induction false} PublishedMeans(r: Registry, names: seq<Package>, n: Package)
    ensures n in Published(r, names) <==> n in names && ManifestOf(r, n).Some?
  {
    if names != [] {
      var last := |names| - 1;
      PublishedMeans(r, names[..last], n);
      assert names == names[..last] + [names[last]];
    }
  }

  function Installs(r: Registry, name: Package): seq<Package> {
    if ManifestOf(r, name).None? then [] else Published(r, InstalledKeys(ManifestOf(r, name).value))
  }

  /** One package installs the other, and both are published. */
  lemma InstallsMeans(r: Registry, a: Package, b: Package)
    ensures b in Installs(r, a) <==>
              && ManifestOf(r, a).Some? && ManifestOf(r, b).Some?
              && var m := ManifestOf(r, a).value;
                 b in m.dependencies || b in m.optionalDependencies ||
                     (b in m.peerDependencies && b !in m.optionalPeers)
  {
    if ManifestOf(r, a).Some? {
      InstalledMeans(ManifestOf(r, a).value, b);
      PublishedMeans(r, InstalledKeys(ManifestOf(r, a).value), b);
    }
  }

  /** Reached: the target is published and a walk of published packages leads from it to `n`. */
  ghost predicate Discovered(r: Registry, n: Package) {
    ManifestOf(r, TARGET).Some? && Reaches(a => Installs(r, a), TARGET, n)
  }

  /** Everything still to be looked at is reached, if it is published. */
  ghost predicate QueueReached(r: Registry, queue: seq<Package>) {
    forall n :: n in queue && ManifestOf(r, n).Some? ==> Discovered(r, n)
  }

  /** A name is settled when it was reached, is not published, or still waits in the queue. */
  ghost predicate Settled(r: Registry, reached: seq<Package>, waiting: seq<Package>, n: Package) {
    n in reached || n in waiting || ManifestOf(r, n).None?
  }

  ghost predicate AllSettled(r: Registry, reached: seq<Package>, waiting: seq<Package>) {
    && Settled(r, reached, waiting, TARGET)
    && forall a, b :: a in reached && b in Installs(r, a) ==> Settled(r, reached, waiting, b)
  }

  lemma FirstSettled(r: Registry)
    ensures AllSettled(r, [], [TARGET]) && QueueReached(r, [TARGET])
  {
    ReachesSelf(a => Installs(r, a), TARGET);
  }

  /** A name that is already reached or is not published needs no further look. */
  lemma SkippedSettled(r: Registry, reached: seq<Package>, waiting: seq<Package>)
    requires waiting != [] && AllSettled(r, reached, waiting)
    requires waiting[0] in reached || ManifestOf(r, waiting[0]).None?
    ensures AllSettled(r, reached, waiting[1..])
  {
    assert waiting == [waiting[0]] + waiting[1..];
    assert forall n :: Settled(r, reached, waiting, n) ==> Settled(r, reached, waiting[1..], n);
  }

  /** Reaching a name settles it, and leaves what it installs waiting. */
  lemma ReachedSettled(r: Registry, reached: seq<Package>, waiting: seq<Package>, pushed: seq<Package>)
    requires waiting != [] && AllSettled(r, reached, waiting) && ManifestOf(r, waiting[0]).Some?
    requires pushed == Without(InstalledKeys(ManifestOf(r, waiting[0]).value), SetOf(reached + [waiting[0]]))
    ensures AllSettled(r, reached + [waiting[0]], waiting[1..] + pushed)
  {
    var name, more, rest := waiting[0], reached + [waiting[0]], waiting[1..] + pushed;
    assert waiting == [name] + waiting[1..];
    assert forall n :: Settled(r, reached, waiting, n) ==> Settled(r, more, rest, n);
    forall a, b | a in more && b in Installs(r, a) ensures Settled(r, more, rest, b) {
      if a == name {
        PublishedMeans(r, InstalledKeys(ManifestOf(r, name).value), b);
        WithoutMeans(InstalledKeys(ManifestOf(r, name).value), SetOf(more), b);
      } else {
        assert a in reached;
      }
    }
  }

  /** What a reached package installs is reached. */
  lemma PushedReached(r: Registry, queue: seq<Package>, name: Package, reached: seq<Package>, pushed: seq<Package>)
    requires QueueReached(r, queue) && name in queue && ManifestOf(r, name).Some?
    requires pushed == Without(InstalledKeys(ManifestOf(r, name).value), SetOf(reached))
    ensures QueueReached(r, queue + pushed) && Discovered(r, name)
  {
    var keys := InstalledKeys(ManifestOf(r, name).value);
    forall n | n in queue + pushed && ManifestOf(r, n).Some? ensures Discovered(r, n) {
      if n !in queue {
        WithoutMeans(keys, SetOf(reached), n);
        PublishedMeans(r, keys, n);
        ReachesOneMore(a => Installs(r, a), TARGET, name, n);
      }
    }
  }

  lemma FewerUnreached(r: Registry, reached: seq<Package>, name: Package)
    requires name !in reached && ManifestOf(r, name).Some?
    ensures |r.workspaceVersions.Keys - SetOf(reached + [name])| < |r.workspaceVersions.Keys - SetOf(reached)|
  {
    var before, after := r.workspaceVersions.Keys - SetOf(reached), r.workspaceVersions.Keys - SetOf(reached + [name]);
    assert before == after + {name};
  }

  /** When nothing waits, what is reached is closed, so nothing discovered is missing. */
  lemma NothingMissing(r: Registry, reached: seq<Package>, n: Package)
    requires AllSettled(r, reached, []) && Discovered(r, n)
    ensures n in reached
  {
    var next := a => Installs(r, a);
    forall a, b | a in SetOf(reached) && b in next(a) ensures b in SetOf(reached) {
      assert Settled(r, reached, [], b);
      InstallsMeans(r, a, b);
    }
    assert Settled(r, reached, [], TARGET);
    ClosedHoldsReached(next, SetOf(reached), TARGET, n);
  }

  method Push(queue: seq<Package>, installed: seq<Package>, reached: seq<Package>) returns (longer: seq<Package>)
    ensures longer == queue + Without(installed, SetOf(reached))
  {
    longer := queue;
    for k := 0 to |installed|
      invariant longer == queue + Without(installed[..k], SetOf(reached))
    {
      assert installed[..k + 1][..k] == installed[..k];
      if installed[k] !in reached {
        longer := longer + [installed[k]];
      }
    }
    assert installed[..|installed|] == installed;
  }

  /** What the search keeps: no name twice, only discovered ones, and everything settled or waiting. */
  ghost predicate Searching(r: Registry, reached: seq<Package>, queue: seq<Package>, cursor: nat) {
    && cursor <= |queue|
    && NoDuplicates(reached) && (forall n :: n in reached ==> Discovered(r, n))
    && QueueReached(r, queue)
    && AllSettled(r, reached, queue[cursor..])
  }

  lemma SearchSkips(r: Registry, reached: seq<Package>, queue: seq<Package>, cursor: nat)
    requires Searching(r, reached, queue, cursor) && cursor < |queue|
    requires queue[cursor] in reached || ManifestOf(r, queue[cursor]).None?
    ensures Searching(r, reached, queue, cursor + 1)
  {
    assert queue[cursor..][1..] == queue[cursor + 1..];
    SkippedSettled(r, reached, queue[cursor..]);
  }

  lemma SearchReaches(r: Registry, reached: seq<Package>, queue: seq<Package>, cursor: nat, pushed: seq<Package>)
    requires Searching(r, reached, queue, cursor) && cursor < |queue|
    requires queue[cursor] !in reached && ManifestOf(r, queue[cursor]).Some?
    requires pushed == Without(InstalledKeys(ManifestOf(r, queue[cursor]).value), SetOf(reached + [queue[cursor]]))
    ensures Searching(r, reached + [queue[cursor]], queue + pushed, cursor + 1)
  {
    assert queue[cursor..][1..] + pushed == (queue + pushed)[cursor + 1..];
    ReachedSettled(r, reached, queue[cursor..], pushed);
    PushedReached(r, queue, queue[cursor], reached + [queue[cursor]], pushed);
  }

  lemma SearchEnds(r: Registry, reached: seq<Package>, queue: seq<Package>)
    requires Searching(r, reached, queue, |queue|)
    ensures NoDuplicates(reached) && forall n :: n in reached <==> Discovered(r, n)
  {
    assert queue[|queue|..] == [];
    forall n | Discovered(r, n) ensures n in reached {
      NothingMissing(r, reached, n);
    }
  }

  method ReachedPackages(r: Registry) returns (reached: seq<Package>)
    ensures NoDuplicates(reached)
    ensures forall n :: n in reached <==> Discovered(r, n)
  {
    reached := [];
    var queue, cursor := [TARGET], 0;
    FirstSettled(r);
    assert queue[0..] == queue;
    while cursor < |queue|
      invariant Searching(r, reached, queue, cursor)
      decreases |r.workspaceVersions.Keys - SetOf(reached)|, |queue| - cursor
    {
      var name := queue[cursor];
      if name in reached || ManifestOf(r, name).None? {
        SearchSkips(r, reached, queue, cursor);
        cursor := cursor + 1;
        continue;
      }
      var installed := InstalledKeys(ManifestOf(r, name).value);
      FewerUnreached(r, reached, name);
      SearchReaches(r, reached, queue, cursor, Without(installed, SetOf(reached + [name])));
      reached := reached + [name];
      queue := Push(queue, installed, reached);
      cursor := cursor + 1;
    }
    SearchEnds(r, reached, queue);
  }

  // ---------------------------------------------------------------- the candidates

  /** A peer other than Cordis. */
  function OtherPeers(m: Manifest): seq<Package> {
    Without(m.peerDependencies, {CORDIS})
  }

  predicate IsCandidate(r: Registry, releasePackages: set<Package>, policyPackages: set<Package>, n: Package) {
    && n !in policyPackages && n in releasePackages
    && ManifestOf(r, n).Some? && OtherPeers(ManifestOf(r, n).value) != []
  }

  lemma CandidateMeans(r: Registry, releasePackages: set<Package>, policyPackages: set<Package>, n: Package)
    ensures IsCandidate(r, releasePackages, policyPackages, n) <==>
              && n in releasePackages && n !in policyPackages && ManifestOf(r, n).Some?
              && exists p :: p in ManifestOf(r, n).value.peerDependencies && p != CORDIS
  {
    if ManifestOf(r, n).Some? {
      var peers := ManifestOf(r, n).value.peerDependencies;
      forall p ensures p in OtherPeers(ManifestOf(r, n).value) <==> p in peers && p != CORDIS {
        WithoutMeans(peers, {CORDIS}, p);
      }
      if OtherPeers(ManifestOf(r, n).value) != [] {
        assert OtherPeers(ManifestOf(r, n).value)[0] in OtherPeers(ManifestOf(r, n).value);
      }
    }
  }

  lemma SortedKeepsElements(xs: seq<Package>)
    ensures NoDuplicates(xs) ==> NoDuplicates(StableSort(xs, InOrder))
    ensures forall n :: n in StableSort(xs, InOrder) <==> n in xs
    ensures SortedBy(StableSort(xs, InOrder), InOrder)
  {
    var sorted := StableSort(xs, InOrder);
    SortPermutes(xs, InOrder);
    InOrderTotal();
    SortSorts(xs, InOrder);
    forall n ensures n in sorted <==> n in xs {
      assert n in multiset(sorted) <==> n in multiset(xs);
    }
    if NoDuplicates(xs) {
      forall n: Package ensures multiset(sorted)[n] <= 1 {
        NoDuplicatesMultiplicity(xs, n);
      }
      MultiplicityNoDuplicates(sorted);
    }
  }

  /**
   The candidates: every discovered release package outside the policy that has a peer other
   than CORDIS, each once, in code unit order.
   */
  method DiscoverBenchmarkCandidates(r: Registry, releasePackages: set<Package>, policyPackages: set<Package>)
    returns (candidates: seq<Package>)
    ensures forall n :: n in candidates <==> Discovered(r, n) && IsCandidate(r, releasePackages, policyPackages, n)
    ensures NoDuplicates(candidates) && SortedBy(candidates, InOrder)
  {
    var reached := ReachedPackages(r);
    var kept := [];
    for k := 0 to |reached|
      invariant NoDuplicates(kept)
      invariant forall n :: n in kept <==> n in reached[..k] && IsCandidate(r, releasePackages, policyPackages, n)
    {
      if IsCandidate(r, releasePackages, policyPackages, reached[k]) {
        kept := kept + [reached[k]];
      }
    }
    SortedKeepsElements(kept);
    candidates := StableSort(kept, InOrder);
  }

  /** What is discovered is the least set of published names that holds the target and all they install. */
  lemma DiscoveredIsLeastClosed(r: Registry, reached: set<Package>)
    requires ManifestOf(r, TARGET).Some? && forall n :: n in reached <==> Discovered(r, n)
    ensures TARGET in reached && ClosedUnder(a => Installs(r, a), reached)
    ensures forall other :: ClosedUnder(a => Installs(r, a), other) && TARGET in other ==> reached <= other
  {
    ReachedIsLeastClosed(a => Installs(r, a), TARGET, reached);
  }
}
