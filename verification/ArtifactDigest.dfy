/**
 The framing of the client artifact digest: for each artifact, in path order, the length of
 its path, a colon, the path, the length of its content, a colon, and the content.

 SHA-256 is an abstract function of the bytes fed to it.
 */
module ArtifactDigest {
  import opened Decimals
  import opened Outcomes
  import opened Sorting

  /** A repository-relative path, in the bytes it is hashed as. */
  datatype Path = Path(bytes: Bytes)

  datatype Artifact = Artifact(path: Path, content: Bytes)

  datatype Digest = Digest(fileCount: nat, sha256: string)

  datatype DigestError = NoArtifacts

  function Frame(bytes: Bytes): Bytes {
    Decimal(|bytes|) + [COLON] + bytes
  }

  function FrameOf(artifact: Artifact): Bytes {
    Frame(artifact.path.bytes) + Frame(artifact.content)
  }

  /** Everything the hash is fed for some artifacts. */
  function Stream(artifacts: seq<Artifact>): Bytes {
    if artifacts == [] then []
    else FrameOf(artifacts[0]) + Stream(artifacts[1..])
  }

  // ---------------------------------------------------------------- reading the stream back

  /** Split one frame off, if the bytes start with one. */
  function ReadFrame(s: Bytes): (r: Option<(Bytes, Bytes)>)
    ensures r.Some? ==> |r.value.1| < |s|
  {
    var k := DigitRun(s);
    if k == |s| || s[k] != COLON || !Canonical(s[..k]) || k + 1 + Value(s[..k]) > |s| then None
    else Some((s[k + 1..k + 1 + Value(s[..k])], s[k + 1 + Value(s[..k])..]))
  }

  function ReadStream(s: Bytes): Option<seq<Artifact>>
    decreases |s|
  {
    if s == [] then Some([])
    else
      match ReadFrame(s)
      case None => None
      case Some((path, behindPath)) =>
        match ReadFrame(behindPath)
        case None => None
        case Some((content, behind)) =>
          match ReadStream(behind)
          case None => None
          case Some(artifacts) => Some([Artifact(Path(path), content)] + artifacts)
  }

  lemma ReadsFrame(bytes: Bytes, rest: Bytes)
    ensures ReadFrame(Frame(bytes) + rest) == Some((bytes, rest))
  {
    var ds, s := Decimal(|bytes|), Frame(bytes) + rest;
    ValueOfDecimal(|bytes|);
    assert s == ds + ([COLON] + bytes + rest);
    DigitRunOf(ds, [COLON] + bytes + rest);
    assert s[..|ds|] == ds;
    var k := |ds| + 1;
    assert s[k..k + |bytes|] == bytes;
    assert s[k + |bytes|..] == rest;
  }

  lemma FrameRead(s: Bytes)
    requires ReadFrame(s).Some?
    ensures s == Frame(ReadFrame(s).value.0) + ReadFrame(s).value.1
  {
    var k := DigitRun(s);
    var ds := s[..k];
    DecimalOfValue(ds);
    var bytes := s[k + 1..k + 1 + Value(ds)];
    assert s == ds + [COLON] + bytes + s[k + 1 + Value(ds)..];
  }

  lemma Regroup(a: Bytes, b: Bytes, c: Bytes)
    ensures (a + b) + c == a + (b + c)
  {
  }

  /** Reading back what was fed to the hash gives the artifacts, whatever their paths and contents hold. */
  lemma {:induction false} ReadsStream(artifacts: seq<Artifact>)
    ensures ReadStream(Stream(artifacts)) == Some(artifacts)
  {
    if artifacts != [] {
      var a, rest := artifacts[0], Stream(artifacts[1..]);
      ReadsStream(artifacts[1..]);
      Regroup(Frame(a.path.bytes), Frame(a.content), rest);
      ReadsFrame(a.path.bytes, Frame(a.content) + rest);
      ReadsFrame(a.content, rest);
      assert artifacts == [a] + artifacts[1..];
    }
  }

  /** Only framed artifacts read back: the bytes are exactly those of the list read. */
  lemma {:induction false} StreamRead(s: Bytes)
    requires ReadStream(s).Some?
    ensures Stream(ReadStream(s).value) == s
    decreases |s|
  {
    if s != [] {
      FrameRead(s);
      var (path, behindPath) := ReadFrame(s).value;
      FrameRead(behindPath);
      var (content, behind) := ReadFrame(behindPath).value;
      StreamRead(behind);
      var artifacts := ReadStream(behind).value;
      assert ([Artifact(Path(path), content)] + artifacts)[1..] == artifacts;
      Regroup(Frame(path), Frame(content), behind);
    }
  }

  /** Two different artifact lists never feed the hash the same bytes. */
  lemma StreamDetermines(xs: seq<Artifact>, ys: seq<Artifact>)
    ensures Stream(xs) == Stream(ys) <==> xs == ys
  {
    ReadsStream(xs);
    ReadsStream(ys);
  }

  // ---------------------------------------------------------------- the digest

  /** A directory as the digest sees it: what the patterns match, what is kept, and the files' bytes. */
  datatype Tree = Tree(listing: seq<Path>, kept: Path -> bool, content: Path -> Bytes)

  function Keep(paths: seq<Path>, kept: Path -> bool): seq<Path> {
    if paths == [] then []
    else Keep(paths[..|paths| - 1], kept) + (if kept(paths[|paths| - 1]) then [paths[|paths| - 1]] else [])
  }

  function SortedPaths(tree: Tree, pathAtMost: (Path, Path) -> bool): seq<Path> {
    StableSort(Keep(tree.listing, tree.kept), pathAtMost)
  }

  function ArtifactsAt(paths: seq<Path>, content: Path -> Bytes): (artifacts: seq<Artifact>)
    ensures |artifacts| == |paths|
  {
    seq(|paths|, i requires 0 <= i < |paths| => Artifact(paths[i], content(paths[i])))
  }

  function Artifacts(tree: Tree, pathAtMost: (Path, Path) -> bool): seq<Artifact> {
    ArtifactsAt(SortedPaths(tree, pathAtMost), tree.content)
  }

  class Hash {
    var fed: Bytes

    constructor ()
      ensures fed == []
    {
      fed := [];
    }

    method Update(bytes: Bytes)
      modifies this
      ensures fed == old(fed) + bytes
    {
      fed := fed + bytes;
    }
  }

  lemma {:induction false} StreamSnoc(artifacts: seq<Artifact>, last: Artifact)
    ensures Stream(artifacts + [last]) == Stream(artifacts) + FrameOf(last)
  {
    if artifacts == [] {
      assert [last][1..] == [] && [] + [last] == [last];
      assert Stream([last]) == FrameOf(last) + Stream([]);
    } else {
      StreamSnoc(artifacts[1..], last);
      assert (artifacts + [last])[1..] == artifacts[1..] + [last];
      Regroup(FrameOf(artifacts[0]), Stream(artifacts[1..]), FrameOf(last));
    }
  }

  /**
   The bytes fed are those of the artifacts one after the other: for each one the length of its
   path in decimal digits, a colon and the path, then the same for its content.
   */
  lemma {:induction false} StreamConcatenates(xs: seq<Artifact>, a: Artifact, ys: seq<Artifact>)
    ensures Stream([]) == []
    ensures Stream(xs + [a] + ys) ==
            Stream(xs) +
            (Decimal(|a.path.bytes|) + [58] + a.path.bytes + (Decimal(|a.content|) + [58] + a.content)) +
            Stream(ys)
    ensures Value(Decimal(|a.path.bytes|)) == |a.path.bytes| && Value(Decimal(|a.content|)) == |a.content|
  {
    ValueOfDecimal(|a.path.bytes|);
    ValueOfDecimal(|a.content|);
    if xs == [] {
      assert (xs + [a] + ys)[0] == a && (xs + [a] + ys)[1..] == ys;
    } else {
      StreamConcatenates(xs[1..], a, ys);
      assert (xs + [a] + ys)[0] == xs[0] && (xs + [a] + ys)[1..] == xs[1..] + [a] + ys;
      Regroup(FrameOf(xs[0]), Stream(xs[1..]), FrameOf(a));
      Regroup(FrameOf(xs[0]), Stream(xs[1..]) + FrameOf(a), Stream(ys));
    }
  }

  /** Feed one artifact to the hash, in four updates. */
  method Feed(digest: Hash, path: Path, content: Bytes)
    modifies digest
    ensures digest.fed == old(digest.fed) + FrameOf(Artifact(path, content))
    ensures FrameOf(Artifact(path, content)) ==
            Decimal(|path.bytes|) + [58] + path.bytes + (Decimal(|content|) + [58] + content)
  {
    digest.Update(Decimal(|path.bytes|) + [COLON]);
    digest.Update(path.bytes);
    Regroup(old(digest.fed), Decimal(|path.bytes|) + [COLON], path.bytes);
    ghost var middle := digest.fed;
    digest.Update(Decimal(|content|) + [COLON]);
    digest.Update(content);
    Regroup(middle, Decimal(|content|) + [COLON], content);
    Regroup(old(digest.fed), Frame(path.bytes), Frame(content));
  }

  method ClientArtifactDigest(tree: Tree, pathAtMost: (Path, Path) -> bool, sha: Bytes -> string)
    returns (r: Result<Digest, DigestError>)
    ensures r.Failure? <==> SortedPaths(tree, pathAtMost) == []
    ensures r.Success? ==>
              r.value == Digest(|SortedPaths(tree, pathAtMost)|, sha(Stream(Artifacts(tree, pathAtMost))))
  {
    var paths := SortedPaths(tree, pathAtMost);
    if |paths| == 0 {
      return Failure(NoArtifacts);
    }
    ghost var artifacts := Artifacts(tree, pathAtMost);
    var digest := new Hash();
    for n := 0 to |paths|
      invariant digest.fed == Stream(artifacts[..n])
    {
      Feed(digest, paths[n], tree.content(paths[n]));
      StreamSnoc(artifacts[..n], artifacts[n]);
      assert artifacts[..n + 1] == artifacts[..n] + [artifacts[n]];
    }
    assert artifacts[..|paths|] == artifacts;
    return Success(Digest(|paths|, sha(digest.fed)));
  }

  // ---------------------------------------------------------------- the record check

  /** The comparison that decides whether a build record still describes the artifacts. */
  method RecordMatches(recorded: Digest, tree: Tree, pathAtMost: (Path, Path) -> bool, sha: Bytes -> string)
    returns (r: Result<bool, DigestError>)
    ensures r.Failure? <==> SortedPaths(tree, pathAtMost) == []
    ensures r.Success? ==>
              (r.value <==>
                 && recorded.fileCount == |Artifacts(tree, pathAtMost)|
                 && recorded.sha256 == sha(Stream(Artifacts(tree, pathAtMost))))
  {
    var current := ClientArtifactDigest(tree, pathAtMost, sha);
    if current.Failure? {
      return Failure(current.error);
    }
    return Success(!(current.value.fileCount != recorded.fileCount || current.value.sha256 != recorded.sha256));
  }

  /** The artifacts of a tree as a map from path to content. */
  ghost predicate SameArtifacts(a: Tree, b: Tree) {
    forall path ::
      && (path in a.listing && a.kept(path) <==> path in b.listing && b.kept(path))
      && (path in a.listing && a.kept(path) ==> a.content(path) == b.content(path))
  }

  lemma {:induction false} KeepKeeps(paths: seq<Path>, kept: Path -> bool, path: Path)
    requires NoDuplicates(paths)
    ensures multiset(Keep(paths, kept))[path] == if path in paths && kept(path) then 1 else 0
  {
    if paths != [] {
      var n := |paths| - 1;
      KeepKeeps(paths[..n], kept, path);
      assert path in paths <==> path in paths[..n] || path == paths[n];
    }
  }

  /** The sorted paths are the kept ones of the listing, each once. */
  lemma SortedPathsAre(tree: Tree, pathAtMost: (Path, Path) -> bool)
    requires TotalOrder(pathAtMost) && NoDuplicates(tree.listing)
    ensures SortedBy(SortedPaths(tree, pathAtMost), pathAtMost)
    ensures forall path ::
              multiset(SortedPaths(tree, pathAtMost))[path] == if path in tree.listing && tree.kept(path) then 1 else 0
  {
    SortPermutes(Keep(tree.listing, tree.kept), pathAtMost);
    SortSorts(Keep(tree.listing, tree.kept), pathAtMost);
    forall path: Path
      ensures multiset(SortedPaths(tree, pathAtMost))[path] == if path in tree.listing && tree.kept(path) then 1 else 0
    {
      KeepKeeps(tree.listing, tree.kept, path);
    }
  }

  lemma SameArtifactsSameList(a: Tree, b: Tree, pathAtMost: (Path, Path) -> bool)
    requires TotalOrder(pathAtMost) && NoDuplicates(a.listing) && NoDuplicates(b.listing)
    requires SameArtifacts(a, b)
    ensures Artifacts(a, pathAtMost) == Artifacts(b, pathAtMost)
  {
    var pathsA, pathsB := SortedPaths(a, pathAtMost), SortedPaths(b, pathAtMost);
    SortedPathsAre(a, pathAtMost);
    SortedPathsAre(b, pathAtMost);
    forall path: Path ensures multiset(pathsA)[path] == multiset(pathsB)[path] {
      assert path in a.listing && a.kept(path) <==> path in b.listing && b.kept(path);
    }
    SortedUnique(pathsA, pathsB, pathAtMost);
    forall i | 0 <= i < |pathsA| ensures pathsA[i] in a.listing && a.kept(pathsA[i]) {
      assert pathsA[i] in multiset(pathsA);
    }
    SameContents(a, b, pathsA);
  }

  lemma SameContents(a: Tree, b: Tree, paths: seq<Path>)
    requires SameArtifacts(a, b)
    requires forall i :: 0 <= i < |paths| ==> paths[i] in a.listing && a.kept(paths[i])
    ensures ArtifactsAt(paths, a.content) == ArtifactsAt(paths, b.content)
  {
    forall i | 0 <= i < |paths| ensures a.content(paths[i]) == b.content(paths[i]) {
      assert paths[i] in a.listing;
    }
  }

  lemma SameListSameArtifacts(a: Tree, b: Tree, pathAtMost: (Path, Path) -> bool)
    requires TotalOrder(pathAtMost) && NoDuplicates(a.listing) && NoDuplicates(b.listing)
    requires Artifacts(a, pathAtMost) == Artifacts(b, pathAtMost)
    ensures SameArtifacts(a, b)
  {
    var pathsA, pathsB := SortedPaths(a, pathAtMost), SortedPaths(b, pathAtMost);
    SortedPathsAre(a, pathAtMost);
    SortedPathsAre(b, pathAtMost);
    PathsOfArtifacts(pathsA, a.content, pathsB, b.content);
    forall path | path in a.listing && a.kept(path) ensures a.content(path) == b.content(path) {
      assert multiset(pathsA)[path] == 1;
      var i :| 0 <= i < |pathsA| && pathsA[i] == path;
      assert Artifacts(a, pathAtMost)[i] == Artifacts(b, pathAtMost)[i];
    }
    forall path: Path ensures path in a.listing && a.kept(path) <==> path in b.listing && b.kept(path) {
      assert multiset(pathsA)[path] == multiset(pathsB)[path];
    }
  }

  lemma PathsOfArtifacts(pathsA: seq<Path>, contentA: Path -> Bytes, pathsB: seq<Path>, contentB: Path -> Bytes)
    requires ArtifactsAt(pathsA, contentA) == ArtifactsAt(pathsB, contentB)
    ensures pathsA == pathsB
  {
    assert |pathsA| == |ArtifactsAt(pathsA, contentA)| == |ArtifactsAt(pathsB, contentB)|;
    forall i | 0 <= i < |pathsA| ensures pathsA[i] == pathsB[i] {
      assert ArtifactsAt(pathsA, contentA)[i].path == ArtifactsAt(pathsB, contentB)[i].path;
    }
  }

  /**
   The record written over `built` passes the comparison over `current` exactly when both
   hold the same artifacts, or their two streams are a collision of the hash.
   */
  lemma RecordAcceptsSameArtifacts(built: Tree, current: Tree, pathAtMost: (Path, Path) -> bool, sha: Bytes -> string)
    requires TotalOrder(pathAtMost) && NoDuplicates(built.listing) && NoDuplicates(current.listing)
    ensures var x, y := Artifacts(built, pathAtMost), Artifacts(current, pathAtMost);
            (|x| == |y| && sha(Stream(x)) == sha(Stream(y))) <==>
            (SameArtifacts(built, current) ||
             (|x| == |y| && Stream(x) != Stream(y) && sha(Stream(x)) == sha(Stream(y))))
  {
    if SameArtifacts(built, current) {
      SameArtifactsSameList(built, current, pathAtMost);
    }
    StreamDetermines(Artifacts(built, pathAtMost), Artifacts(current, pathAtMost));
    if Artifacts(built, pathAtMost) == Artifacts(current, pathAtMost) {
      SameListSameArtifacts(built, current, pathAtMost);
    }
  }
}
