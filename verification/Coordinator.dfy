/**
 The coverage coordinator: from the instrumented inventory to one verdict, and what a
 verdict of zero says about the test files that ran.

 Child processes, the file system and the collected inventory are inputs: `World` holds
 what one run observes of them.
 */
module Coordinator {
  import Decimals
  import opened Outcomes
  import opened PartitionHeap
  import opened Partitions
  import opened Sorting
  import Text

  datatype Inventory = Inventory(files: seq<TestFile>, projectOf: map<TestFile, string>)

  datatype CommandResult = CommandResult(exitCode: Option<int>, signalCode: Option<string>, error: Option<string>)

  /** One entry of a timing report; an entry may lack its file name. */
  datatype TimingRecord = Nameless | Timed(file: TestFile)

  datatype Report = Unreadable | NotAList | Records(records: seq<TimingRecord>)

  datatype World = World(
    inventory: Option<Inventory>,
    history: map<TestFile, real>,
    results: nat -> CommandResult,
    blobs: seq<string>,
    reports: nat -> Report,
    merge: CommandResult)

  datatype RunError =
    | TooFewPartitions
    | InventoryFailed
    | EmptyPartition(index: nat)
    | IncompleteBlobs
    | IncompleteReports

  predicate CommandFailed(result: CommandResult) {
    result.exitCode != Some(0) || result.signalCode != None || result.error != None
  }

  // ---------------------------------------------------------------- timing reports

  /** The elements of `xs` outside `keep`, in order. */
  function Outside(xs: seq<TestFile>, keep: set<TestFile>): (out: seq<TestFile>)
    ensures out == [] <==> forall x :: x in xs ==> x in keep
  {
    if xs == [] then []
    else
      assert xs == xs[..|xs| - 1] + [xs[|xs| - 1]];
      Outside(xs[..|xs| - 1], keep) + (if xs[|xs| - 1] in keep then [] else [xs[|xs| - 1]])
  }

  function Filenames(records: seq<TimingRecord>): Option<seq<TestFile>> {
    if records == [] then Some([])
    else
      match (Filenames(records[..|records| - 1]), records[|records| - 1])
      case (Some(files), Timed(file)) => Some(files + [file])
      case _ => None
  }

  /** The comparison of one partition's report with the files assigned to it. */
  predicate ReportAccepted(expected: seq<TestFile>, report: Report) {
    report.Records? &&
    match Filenames(report.records)
    case None => false
    case Some(actual) =>
      var observed := SetOf(actual);
      var wanted := SetOf(expected);
      var missing := Outside(expected, observed);
      var unexpected := Outside(actual, wanted);
      !(|missing| > 0 || |unexpected| > 0 || |observed| != |actual|)
  }

  ghost function Reported(report: Report): seq<TestFile> {
    if report.Records? && Filenames(report.records).Some? then Filenames(report.records).value else []
  }

  /**
   A report passes exactly when it lists the assigned files, each of them once; for an assignment
   without repetition, when it is a permutation of it.
   */
  lemma ReportAcceptedIff(expected: seq<TestFile>, report: Report)
    ensures ReportAccepted(expected, report) <==>
              && report.Records? && Filenames(report.records).Some?
              && NoDuplicates(Reported(report)) && forall f :: f in Reported(report) <==> f in expected
    ensures NoDuplicates(expected) ==>
              (ReportAccepted(expected, report) <==>
                 report.Records? && Filenames(report.records).Some? && multiset(Reported(report)) == multiset(expected))
  {
    if report.Records? && Filenames(report.records).Some? {
      var actual := Reported(report);
      DistinctIffSetSize(actual);
      if NoDuplicates(expected) {
        PermutationIffSameElements(actual, expected);
      }
    }
  }

  lemma PermutationIffSameElements(actual: seq<TestFile>, expected: seq<TestFile>)
    requires NoDuplicates(expected)
    ensures multiset(actual) == multiset(expected) <==>
              NoDuplicates(actual) && forall f :: f in actual <==> f in expected
  {
    if multiset(actual) == multiset(expected) {
      forall x: TestFile ensures (x in actual <==> x in expected) && multiset(actual)[x] <= 1 {
        NoDuplicatesMultiplicity(expected, x);
        assert x in actual <==> x in multiset(actual);
        assert x in expected <==> x in multiset(expected);
      }
      MultiplicityNoDuplicates(actual);
    } else if NoDuplicates(actual) && forall f :: f in actual <==> f in expected {
      SameElements(actual, expected);
    }
  }

  /** The files of the records, as far as these are named. */
  lemma {:induction false} FilenamesAre(records: seq<TimingRecord>)
    ensures Filenames(records).Some? <==> forall k :: 0 <= k < |records| ==> records[k].Timed?
    ensures Filenames(records).Some? ==>
              && |Filenames(records).value| == |records|
              && forall k :: 0 <= k < |records| ==> records[k] == Timed(Filenames(records).value[k])
  {
    if records != [] {
      var n := |records| - 1;
      FilenamesAre(records[..n]);
      assert forall k :: 0 <= k < n ==> records[k] == records[..n][k];
    }
  }

  /** The report is a list in which every record has a name, no name occurs twice, and exactly these files are named. */
  ghost predicate AccountsFor(report: Report, expected: seq<TestFile>) {
    && report.Records?
    && (forall k :: 0 <= k < |report.records| ==> report.records[k].Timed?)
    && (forall j, k :: 0 <= j < k < |report.records| ==> report.records[j] != report.records[k])
    && forall f :: f in expected <==> Timed(f) in report.records
  }

  lemma AcceptedIffAccounts(expected: seq<TestFile>, report: Report)
    ensures ReportAccepted(expected, report) <==> AccountsFor(report, expected)
  {
    ReportAcceptedIff(expected, report);
    if report.Records? {
      FilenamesAre(report.records);
      if Filenames(report.records).Some? {
        NamedAsListed(report);
      }
    }
  }

  lemma NamedAsListed(report: Report)
    requires report.Records? && Filenames(report.records).Some?
    ensures forall f :: f in Reported(report) <==> Timed(f) in report.records
  {
    var actual := Reported(report);
    FilenamesAre(report.records);
    forall f ensures f in actual <==> Timed(f) in report.records {
      if k :| 0 <= k < |actual| && actual[k] == f {
        assert report.records[k] == Timed(f);
      }
      if k :| 0 <= k < |report.records| && report.records[k] == Timed(f) {
        assert actual[k] == f;
      }
    }
  }

  // ---------------------------------------------------------------- blobs

  function BlobNames(blobName: nat -> string, partitions: nat): (names: seq<string>)
    ensures |names| == partitions
  {
    seq(partitions, i requires 0 <= i < partitions => blobName(i + 1))
  }

  /** The sorted listings are compared element by element. */
  predicate BlobsComplete(actual: seq<string>, expected: seq<string>, nameAtMost: (string, string) -> bool) {
    StableSort(actual, nameAtMost) == StableSort(expected, nameAtMost)
  }

  /** The blob directory passes exactly when it holds one blob per partition and nothing else. */
  lemma BlobsCompleteIff(actual: seq<string>, expected: seq<string>, nameAtMost: (string, string) -> bool)
    requires TotalOrder(nameAtMost)
    ensures BlobsComplete(actual, expected, nameAtMost) <==> multiset(actual) == multiset(expected)
  {
    SortSorts(actual, nameAtMost);
    SortSorts(expected, nameAtMost);
    SortPermutes(actual, nameAtMost);
    SortPermutes(expected, nameAtMost);
    if multiset(actual) == multiset(expected) {
      SortedUnique(StableSort(actual, nameAtMost), StableSort(expected, nameAtMost), nameAtMost);
    }
  }

  // ---------------------------------------------------------------- one run

  /** The order of partitions: heaviest first, so that the longest child starts earliest. */
  ghost predicate Scheduled(files: seq<TestFile>, weights: map<TestFile, real>,
                            nameAtMost: (TestFile, TestFile) -> bool, assignments: seq<seq<TestFile>>) {
    exists buckets :: LongestFirst(files, weights, nameAtMost, buckets) &&
      assignments == StableSort(buckets, (l, r) => PartitionWeight(l, weights) >= PartitionWeight(r, weights))
  }

  ghost predicate IsFirstEmpty(assignments: seq<seq<TestFile>>, index: nat) {
    && index < |assignments| && assignments[index] == []
    && forall i :: 0 <= i < index ==> assignments[i] != []
  }

  /** The partition that an empty-partition error names. */
  method FirstEmpty(assignments: seq<seq<TestFile>>) returns (index: Option<nat>)
    ensures index.Some? ==> IsFirstEmpty(assignments, index.value)
    ensures index.None? ==> forall i :: 0 <= i < |assignments| ==> assignments[i] != []
  {
    for i := 0 to |assignments|
      invariant forall j :: 0 <= j < i ==> assignments[j] != []
    {
      if |assignments[i]| == 0 {
        return Some(i);
      }
    }
    return None;
  }

  class CoveragePartitionCoordinator {
    const partitions: nat
    const files: seq<TestFile>
    const weights: Option<map<TestFile, real>>
    const nameAtMost: (TestFile, TestFile) -> bool
    const blobAtMost: (string, string) -> bool
    const blobName: nat -> string
    var projectOf: map<TestFile, string>

    constructor (partitions: nat, files: seq<TestFile>, weights: Option<map<TestFile, real>>,
                 projectOf: map<TestFile, string>, nameAtMost: (TestFile, TestFile) -> bool,
                 blobAtMost: (string, string) -> bool, blobName: nat -> string)
      requires partitions >= 2
      ensures this.partitions == partitions && this.files == files && this.weights == weights
      ensures this.projectOf == projectOf && this.nameAtMost == nameAtMost
      ensures this.blobAtMost == blobAtMost && this.blobName == blobName
    {
      this.partitions, this.files, this.weights, this.projectOf := partitions, files, weights, projectOf;
      this.nameAtMost, this.blobAtMost, this.blobName := nameAtMost, blobAtMost, blobName;
    }

    /** A coordinator, or the error for a number of partitions that is not a safe integer of at least two. */
    static method Create(partitions: int, files: seq<TestFile>, weights: Option<map<TestFile, real>>,
                         projectOf: map<TestFile, string>, nameAtMost: (TestFile, TestFile) -> bool,
                         blobAtMost: (string, string) -> bool, blobName: nat -> string)
      returns (r: Result<CoveragePartitionCoordinator, RunError>)
      ensures r.Success? <==> 2 <= partitions <= Decimals.MAX_SAFE_INTEGER
      ensures r.Failure? ==> r.error == TooFewPartitions
      ensures r.Success? ==>
                && fresh(r.value) && r.value.partitions == partitions && r.value.files == files
                && r.value.weights == weights && r.value.projectOf == projectOf && r.value.nameAtMost == nameAtMost
                && r.value.blobAtMost == blobAtMost && r.value.blobName == blobName
    {
      if partitions < 2 || partitions > Decimals.MAX_SAFE_INTEGER {
        return Failure(TooFewPartitions);
      }
      var created :=
          new CoveragePartitionCoordinator(partitions, files, weights, projectOf, nameAtMost, blobAtMost, blobName);
      return Success(created);
    }

    /** The inventory of one run: the injected files, else the collected ones. */
    ghost function RunFiles(world: World): seq<TestFile> {
      if files != [] then files else if world.inventory.Some? then world.inventory.value.files else []
    }

    ghost function RunWeights(world: World): map<TestFile, real> {
      if files == [] then world.history else if weights.Some? then weights.value else map[]
    }

    /** Distribute the inventory over the partitions, heaviest partition first. */
    method AssignFiles(world: World) returns (r: Result<seq<seq<TestFile>>, RunError>)
      requires partitions >= 2
      modifies this`projectOf
      ensures r.Failure? <==> files == [] && world.inventory.None?
      ensures r.Failure? ==> r.error == InventoryFailed && projectOf == old(projectOf)
      ensures r.Success? ==> |r.value| == partitions
      ensures r.Success? ==> Scheduled(RunFiles(world), RunWeights(world), nameAtMost, r.value)
      ensures r.Success? && files != [] ==>
                Scheduled(files, if weights.Some? then weights.value else map[], nameAtMost, r.value)
      ensures r.Success? && files == [] ==>
                Scheduled(world.inventory.value.files, world.history, nameAtMost, r.value)
      ensures r.Success? ==> projectOf == if files != [] then old(projectOf) else world.inventory.value.projectOf
    {
      var listed, durations := files, map[];
      if |files| > 0 {
        durations := if weights.Some? then weights.value else map[];
      } else {
        if world.inventory.None? {
          return Failure(InventoryFailed);
        }
        listed := world.inventory.value.files;
        projectOf := world.inventory.value.projectOf;
        durations := world.history;
      }
      var buckets := AssignWeightedPartitions(listed, durations, partitions, nameAtMost);
      var heavier := (l, r) => PartitionWeight(l, durations) >= PartitionWeight(r, durations);
      SortPermutes(buckets.value, heavier);
      var sorted := StableSort(buckets.value, heavier);
      assert Scheduled(listed, durations, nameAtMost, sorted);
      return Success(sorted);
    }

    /** No partition is empty and the blob set is complete. */
    ghost predicate BlobsPass(assignments: seq<seq<TestFile>>, world: World) {
      && (forall i :: 0 <= i < |assignments| ==> assignments[i] != [])
      && BlobsComplete(world.blobs, BlobNames(blobName, |assignments|), blobAtMost)
    }

    /** Moreover each partition's report accounts for its files. */
    ghost predicate ReportsPass(assignments: seq<seq<TestFile>>, world: World) {
      && BlobsPass(assignments, world)
      && forall i :: 0 <= i < |assignments| ==> ReportAccepted(assignments[i], world.reports(i))
    }

    ghost predicate CommandsPass(assignments: seq<seq<TestFile>>, world: World) {
      (forall i :: 0 <= i < |assignments| ==> !CommandFailed(world.results(i))) && !CommandFailed(world.merge)
    }

    /** The conditions under which a run over `assignments` returns zero. */
    ghost predicate Accepted(assignments: seq<seq<TestFile>>, world: World) {
      ReportsPass(assignments, world) && CommandsPass(assignments, world)
    }

    /**
     One run, and which condition decides its outcome: an empty partition, the blobs, the reports,
     then the commands.
     */
    method Run(world: World) returns (r: Result<int, RunError>, ghost assignments: seq<seq<TestFile>>)
      requires partitions >= 2
      modifies this`projectOf
      ensures files == [] && world.inventory.None? <==> r == Failure(InventoryFailed)
      ensures r != Failure(InventoryFailed) ==>
                && |assignments| == partitions
                && Scheduled(RunFiles(world), RunWeights(world), nameAtMost, assignments)
                && (r == Success(0) <==> Accepted(assignments, world))
                && (ReportsPass(assignments, world) ==>
                      (r == Success(0) <==>
                         && (forall i :: 0 <= i < partitions ==> world.results(i) == CommandResult(Some(0), None, None))
                         && world.merge == CommandResult(Some(0), None, None)))
                && (forall i :: r == Failure(EmptyPartition(i)) <==> IsFirstEmpty(assignments, i))
                && (r == Failure(IncompleteBlobs) <==>
                      (forall i :: 0 <= i < |assignments| ==> assignments[i] != []) && !BlobsPass(assignments, world))
                && (r == Failure(IncompleteReports) <==>
                     BlobsPass(assignments, world) && !ReportsPass(assignments, world))
                && (r == Success(1) <==> ReportsPass(assignments, world) && !CommandsPass(assignments, world))
    {
      assignments := [];
      var split := AssignFiles(world);
      if split.Failure? {
        return Failure(InventoryFailed), [];
      }
      var lists := split.value;
      assignments := lists;
      var empty := FirstEmpty(lists);
      if empty.Some? {
        return Failure(EmptyPartition(empty.value)), lists;
      }
      if !BlobsComplete(world.blobs, BlobNames(blobName, |lists|), blobAtMost) {
        return Failure(IncompleteBlobs), lists;
      }
      if exists i :: 0 <= i < |lists| && !ReportAccepted(lists[i], world.reports(i)) {
        return Failure(IncompleteReports), lists;
      }
      var failed := exists i :: 0 <= i < |lists| && CommandFailed(world.results(i));
      var succeeded := !failed && !CommandFailed(world.merge);
      return Success(if succeeded then 0 else 1), lists;
    }
  }

  // ---------------------------------------------------------------- include lists

  /** Only files recorded as process-bound go to the process-bound project. */
  predicate ProcessBound(projectOf: map<TestFile, string>, file: TestFile) {
    file in projectOf && projectOf[file] == "process-bound"
  }

  /** A path with forward slashes. */
  function Slashed(file: TestFile): TestFile {
    TestFile(Text.Join(Text.Split(file.path, '\\'), '/'))
  }

  function Has(f: TestFile, path: TestFile): nat {
    if Slashed(f) == path then 1 else 0
  }

  /** The path is as it was, with a forward slash for each backslash. */
  lemma SlashedIs(file: TestFile)
    ensures |Slashed(file).path| == |file.path|
    ensures forall i :: 0 <= i < |file.path| ==>
              Slashed(file).path[i] == if file.path[i] == '\\' then '/' else file.path[i]
  {
    JoinedSplit(file.path, '\\', '/');
  }

  lemma {:induction false} JoinedSplit(s: string, c: char, d: char)
    ensures |Text.Join(Text.Split(s, c), d)| == |s|
    ensures forall i :: 0 <= i < |s| ==> Text.Join(Text.Split(s, c), d)[i] == if s[i] == c then d else s[i]
  {
    if s != [] {
      var rest := Text.Split(s[1..], c);
      JoinedSplit(s[1..], c, d);
      if s[0] == c {
        JoinOpens(rest, d);
      } else {
        JoinPrepends(s[0], rest, d);
      }
    }
  }

  lemma JoinOpens(pieces: seq<string>, d: char)
    requires pieces != []
    ensures Text.Join([[]] + pieces, d) == [d] + Text.Join(pieces, d)
  {
    var longer: seq<string> := [[]] + pieces;
    assert longer[1..] == pieces;
  }

  lemma JoinPrepends(ch: char, pieces: seq<string>, d: char)
    requires pieces != []
    ensures Text.Join(Text.Prepend(ch, pieces), d) == [ch] + Text.Join(pieces, d)
  {
    var longer := Text.Prepend(ch, pieces);
    assert longer[1..] == pieces[1..] && longer[0] == [ch] + pieces[0];
  }

  function AllSlashed(files: seq<TestFile>): (slashed: seq<TestFile>)
    ensures |slashed| == |files|
  {
    seq(|files|, i requires 0 <= i < |files| => Slashed(files[i]))
  }

  /** The include list of one project in one partition's configuration. */
  function IncludeList(files: seq<TestFile>, projectOf: map<TestFile, string>, processBound: bool): seq<TestFile> {
    if files == [] then []
    else
      IncludeList(files[..|files| - 1], projectOf, processBound) +
      (if ProcessBound(projectOf, files[|files| - 1]) == processBound then [Slashed(files[|files| - 1])] else [])
  }

  lemma IncludeListSnoc(
    front: seq<TestFile>, last: TestFile, projectOf: map<TestFile, string>, processBound: bool, path: TestFile)
    ensures multiset(IncludeList(front + [last], projectOf, processBound))[path] ==
            multiset(IncludeList(front, projectOf, processBound))[path] +
            if ProcessBound(projectOf, last) == processBound then Has(last, path) else 0
  {
    assert (front + [last])[..|front|] == front;
  }

  lemma SlashedSnoc(front: seq<TestFile>, last: TestFile, path: TestFile)
    ensures multiset(AllSlashed(front + [last]))[path] == multiset(AllSlashed(front))[path] + Has(last, path)
  {
    assert AllSlashed(front + [last]) == AllSlashed(front) + [Slashed(last)];
  }

  /** The two projects' lists together hold every path of the partition as often as it is listed. */
  lemma {:induction false} IncludeListsCount(files: seq<TestFile>, projectOf: map<TestFile, string>, path: TestFile)
    ensures multiset(IncludeList(files, projectOf, false))[path] +
              multiset(IncludeList(files, projectOf, true))[path] ==
            multiset(AllSlashed(files))[path]
  {
    if files != [] {
      var front, last := files[..|files| - 1], files[|files| - 1];
      FrontAndLast(files);
      IncludeListsCount(front, projectOf, path);
      IncludeListsSnoc(front, last, projectOf, path);
    }
  }

  lemma IncludeListsSnoc(front: seq<TestFile>, last: TestFile, projectOf: map<TestFile, string>, path: TestFile)
    requires multiset(IncludeList(front, projectOf, false))[path] +
             multiset(IncludeList(front, projectOf, true))[path] ==
             multiset(AllSlashed(front))[path]
    ensures var files := front + [last];
            multiset(IncludeList(files, projectOf, false))[path] +
                multiset(IncludeList(files, projectOf, true))[path] ==
            multiset(AllSlashed(files))[path]
  {
    IncludeListSnoc(front, last, projectOf, false, path);
    IncludeListSnoc(front, last, projectOf, true, path);
    SlashedSnoc(front, last, path);
  }

  /** No other file of these has the same path in forward slashes. */
  ghost predicate OnlySlashed(files: seq<TestFile>, f: TestFile) {
    forall x :: x in files && Slashed(x) == Slashed(f) ==> x == f
  }

  /** A file whose path no other shares is in the list of its project, as often as it is listed, and in no other. */
  lemma {:induction false} IncludeListCounts(files: seq<TestFile>, projectOf: map<TestFile, string>,
                                             processBound: bool, f: TestFile)
    requires OnlySlashed(files, f)
    ensures multiset(IncludeList(files, projectOf, processBound))[Slashed(f)] ==
            if (f in projectOf && projectOf[f] == "process-bound") == processBound then multiset(files)[f] else 0
  {
    if files != [] {
      var front, last := files[..|files| - 1], files[|files| - 1];
      FrontAndLast(files);
      IncludeListCounts(front, projectOf, processBound, f);
      IncludeListSnoc(front, last, projectOf, processBound, Slashed(f));
      assert Has(last, Slashed(f)) == if last == f then 1 else 0;
    }
  }

  /** A file listed once over all partitions is in one of them. */
  lemma {:induction false} OneHome(buckets: seq<seq<TestFile>>, f: TestFile) returns (home: nat)
    requires FilesIn(buckets)[f] == 1
    ensures home < |buckets| && multiset(buckets[home])[f] == 1
    ensures forall b :: 0 <= b < |buckets| && b != home ==> multiset(buckets[b])[f] == 0
  {
    var n := |buckets| - 1;
    if multiset(buckets[n])[f] == 1 {
      home := n;
      forall b | 0 <= b < n ensures multiset(buckets[b])[f] == 0 {
        NoHome(buckets[..n], f, b);
      }
    } else {
      home := OneHome(buckets[..n], f);
    }
  }

  lemma {:induction false} NoHome(buckets: seq<seq<TestFile>>, f: TestFile, b: nat)
    requires FilesIn(buckets)[f] == 0 && b < |buckets|
    ensures multiset(buckets[b])[f] == 0
  {
    if b < |buckets| - 1 {
      NoHome(buckets[..|buckets| - 1], f, b);
    }
  }

  // ---------------------------------------------------------------- what a zero verdict means

  lemma {:induction false} SortedPartitionsConserve(buckets: seq<seq<TestFile>>,
                                                    atMost: (seq<TestFile>, seq<TestFile>) -> bool, f: TestFile)
    ensures FilesIn(StableSort(buckets, atMost))[f] == FilesIn(buckets)[f]
  {
    if buckets != [] {
      var n := |buckets| - 1;
      SortedPartitionsConserve(buckets[..n], atMost, f);
      InsertedPartitionCounts(StableSort(buckets[..n], atMost), buckets[n], atMost, f);
    }
  }

  lemma {:induction false} InsertedPartitionCounts(buckets: seq<seq<TestFile>>, x: seq<TestFile>,
                                                   atMost: (seq<TestFile>, seq<TestFile>) -> bool, f: TestFile)
    ensures FilesIn(Insert(buckets, x, atMost))[f] == FilesIn(buckets)[f] + multiset(x)[f]
  {
    if buckets == [] || atMost(buckets[|buckets| - 1], x) {
      FilesInSnoc(buckets, x, f);
    } else {
      var n := |buckets| - 1;
      InsertedPartitionCounts(buckets[..n], x, atMost, f);
      FilesInSnoc(Insert(buckets[..n], x, atMost), buckets[n], f);
    }
  }

  lemma FilesInSnoc(buckets: seq<seq<TestFile>>, x: seq<TestFile>, f: TestFile)
    ensures FilesIn(buckets + [x])[f] == FilesIn(buckets)[f] + multiset(x)[f]
  {
    assert (buckets + [x])[..|buckets|] == buckets;
  }

  /** The scheduled partitions hold every inventory file, as often as it was listed. */
  lemma ScheduleConserves(files: seq<TestFile>, weights: map<TestFile, real>,
                          nameAtMost: (TestFile, TestFile) -> bool, assignments: seq<seq<TestFile>>)
    requires Scheduled(files, weights, nameAtMost, assignments)
    ensures FilesIn(assignments) == multiset(files)
  {
    var buckets :| LongestFirst(files, weights, nameAtMost, buckets) &&
      assignments == StableSort(buckets, (l, r) => PartitionWeight(l, weights) >= PartitionWeight(r, weights));
    AssignmentConserves(files, weights, nameAtMost, buckets);
    forall f: TestFile ensures FilesIn(assignments)[f] == FilesIn(buckets)[f] {
      SortedPartitionsConserve(buckets, (l, r) => PartitionWeight(l, weights) >= PartitionWeight(r, weights), f);
    }
  }

  /** No partition starts before a heavier one. */
  lemma HeaviestStartsFirst(files: seq<TestFile>, weights: map<TestFile, real>,
                            nameAtMost: (TestFile, TestFile) -> bool, assignments: seq<seq<TestFile>>, i: nat, j: nat)
    requires Scheduled(files, weights, nameAtMost, assignments) && i < j < |assignments|
    ensures PartitionWeight(assignments[i], weights) >= PartitionWeight(assignments[j], weights)
  {
    var heavier := (l, r) => PartitionWeight(l, weights) >= PartitionWeight(r, weights);
    var buckets :| LongestFirst(files, weights, nameAtMost, buckets) &&
      assignments == StableSort(buckets, (l, r) => PartitionWeight(l, weights) >= PartitionWeight(r, weights));
    assert TotalPreorder(heavier);
    SortSorts(buckets, heavier);
  }

  /**
   Exactly when a run starts no partition without files: the files whose weight is not
   negative fill one partition each, and all the others together fill one more.
   */
  lemma NoEmptyAssignmentIff(files: seq<TestFile>, weights: map<TestFile, real>,
                             nameAtMost: (TestFile, TestFile) -> bool, assignments: seq<seq<TestFile>>)
    requires TotalPreorder(nameAtMost) && Scheduled(files, weights, nameAtMost, assignments)
    ensures (forall i :: 0 <= i < |assignments| ==> assignments[i] != []) <==>
            Partitions.Timed(files, weights) +
                (if Partitions.Timed(files, weights) < |files| then 1 else 0) >= |assignments|
    ensures (forall f :: f in files ==> WeightOf(weights, f) >= 0.0) ==>
              ((forall i :: 0 <= i < |assignments| ==> assignments[i] != []) <==> |files| >= |assignments|)
  {
    var heavier := (l, r) => PartitionWeight(l, weights) >= PartitionWeight(r, weights);
    var buckets :| LongestFirst(files, weights, nameAtMost, buckets) &&
      assignments == StableSort(buckets, (l, r) => PartitionWeight(l, weights) >= PartitionWeight(r, weights));
    SortPermutes(buckets, heavier);
    NoneEmptyAfterSort(buckets, assignments);
    NoPartitionEmptyIff(files, weights, nameAtMost, buckets);
    if forall f :: f in files ==> WeightOf(weights, f) >= 0.0 {
      NoPartitionEmptyForDurations(files, weights, nameAtMost, buckets);
    }
  }

  lemma NoneEmptyAfterSort(buckets: seq<seq<TestFile>>, assignments: seq<seq<TestFile>>)
    requires multiset(assignments) == multiset(buckets)
    ensures (forall i :: 0 <= i < |assignments| ==> assignments[i] != []) <==>
            (forall i :: 0 <= i < |buckets| ==> buckets[i] != [])
  {
    assert [] in buckets <==> [] in multiset(buckets);
    assert [] in assignments <==> [] in multiset(assignments);
    if i :| 0 <= i < |buckets| && buckets[i] == [] {
      assert [] in buckets;
    }
    if i :| 0 <= i < |assignments| && assignments[i] == [] {
      assert [] in assignments;
    }
  }

  /** How often the include lists of all partitions and both projects hold a path. */
  ghost function Included(assignments: seq<seq<TestFile>>, projectOf: map<TestFile, string>, path: TestFile): nat {
    if assignments == [] then 0
    else
      var last := assignments[|assignments| - 1];
      Included(assignments[..|assignments| - 1], projectOf, path) +
      multiset(IncludeList(last, projectOf, false))[path] + multiset(IncludeList(last, projectOf, true))[path]
  }

  ghost function AnyOf(files: multiset<TestFile>): (f: TestFile)
    requires files != multiset{}
    ensures f in files
  {
    var f :| f in files;
    f
  }

  /** How often some files have a path, counted file by file. */
  ghost function Paths(files: multiset<TestFile>, path: TestFile): nat {
    if files == multiset{} then 0
    else
      var f := AnyOf(files);
      Paths(files - multiset{f}, path) + Has(f, path)
  }

  lemma {:induction false} PathsWithout(files: multiset<TestFile>, f: TestFile, path: TestFile)
    requires f in files
    ensures Paths(files, path) == Paths(files - multiset{f}, path) + Has(f, path)
    decreases |files|
  {
    var first := AnyOf(files);
    if first != f {
      PathsWithout(files - multiset{first}, f, path);
      PathsWithout(files - multiset{f}, first, path);
      assert files - multiset{first} - multiset{f} == files - multiset{f} - multiset{first};
    }
  }

  lemma PathsSnoc(xs: multiset<TestFile>, front: seq<TestFile>, last: TestFile, path: TestFile)
    ensures Paths(xs + multiset(front + [last]), path) == Paths(xs + multiset(front), path) + Has(last, path)
  {
    var all := xs + multiset(front + [last]);
    assert all - multiset{last} == xs + multiset(front);
    PathsWithout(all, last, path);
  }

  lemma {:induction false} PathsJoin(xs: multiset<TestFile>, files: seq<TestFile>, path: TestFile)
    ensures Paths(xs + multiset(files), path) == Paths(xs, path) + multiset(AllSlashed(files))[path]
  {
    if files == [] {
      assert xs + multiset(files) == xs;
    } else {
      var front, last := files[..|files| - 1], files[|files| - 1];
      FrontAndLast(files);
      PathsJoin(xs, front, path);
      PathsSnoc(xs, front, last, path);
      SlashedSnoc(front, last, path);
    }
  }

  lemma PathsOfList(files: seq<TestFile>, path: TestFile)
    ensures Paths(multiset(files), path) == multiset(AllSlashed(files))[path]
  {
    PathsJoin(multiset{}, files, path);
    assert multiset{} + multiset(files) == multiset(files);
  }

  lemma {:induction false} IncludedPaths(
    assignments: seq<seq<TestFile>>, projectOf: map<TestFile, string>, path: TestFile)
    ensures Included(assignments, projectOf, path) == Paths(FilesIn(assignments), path)
  {
    if assignments != [] {
      var n := |assignments| - 1;
      IncludedPaths(assignments[..n], projectOf, path);
      IncludeListsCount(assignments[n], projectOf, path);
      PathsJoin(FilesIn(assignments[..n]), assignments[n], path);
    }
  }

  /** All include lists together hold every path exactly as often as the inventory lists a file of that path. */
  lemma IncludedAsListed(files: seq<TestFile>, weights: map<TestFile, real>,
                         nameAtMost: (TestFile, TestFile) -> bool, assignments: seq<seq<TestFile>>,
                         projectOf: map<TestFile, string>, path: TestFile)
    requires Scheduled(files, weights, nameAtMost, assignments)
    ensures Included(assignments, projectOf, path) == multiset(AllSlashed(files))[path]
  {
    ScheduleConserves(files, weights, nameAtMost, assignments);
    IncludedPaths(assignments, projectOf, path);
    PathsOfList(files, path);
  }

  /** Every file's path is included once if and only if no two files have the same path in forward slashes. */
  lemma IncludedOnceIff(files: seq<TestFile>, weights: map<TestFile, real>,
                        nameAtMost: (TestFile, TestFile) -> bool, assignments: seq<seq<TestFile>>,
                        projectOf: map<TestFile, string>)
    requires Scheduled(files, weights, nameAtMost, assignments)
    ensures (forall f :: f in files ==> Included(assignments, projectOf, Slashed(f)) == 1) <==>
              NoDuplicates(AllSlashed(files))
  {
    var slashed := AllSlashed(files);
    forall f ensures Included(assignments, projectOf, f) == multiset(slashed)[f] {
      IncludedAsListed(files, weights, nameAtMost, assignments, projectOf, f);
    }
    if NoDuplicates(slashed) {
      forall f | f in files ensures multiset(slashed)[Slashed(f)] == 1 {
        var i :| 0 <= i < |files| && files[i] == f;
        assert slashed[i] in slashed;
        NoDuplicatesMultiplicity(slashed, Slashed(f));
      }
    } else if forall f :: f in files ==> Included(assignments, projectOf, Slashed(f)) == 1 {
      forall p: TestFile ensures multiset(slashed)[p] <= 1 {
        if p in multiset(slashed) {
          assert p in slashed;
          var i :| 0 <= i < |slashed| && slashed[i] == p;
          assert files[i] in files && p == Slashed(files[i]);
        }
      }
      MultiplicityNoDuplicates(slashed);
    }
  }

  lemma DistinctSlashes(files: seq<TestFile>, f: TestFile)
    requires NoDuplicates(AllSlashed(files)) && f in files
    ensures NoDuplicates(files) && OnlySlashed(files, f)
  {
    var slashed := AllSlashed(files);
    forall i, j | 0 <= i < j < |files| ensures files[i] != files[j] && Slashed(files[i]) != Slashed(files[j]) {
      assert slashed[i] != slashed[j];
    }
    var k :| 0 <= k < |files| && files[k] == f;
    forall x | x in files && Slashed(x) == Slashed(f) ensures x == f {
      var i :| 0 <= i < |files| && files[i] == x;
      assert i == k;
    }
  }

  /** `a/b` and `a\\b` are one path with forward slashes. */
  lemma SamePath()
    ensures Slashed(TestFile("a/b")) == Slashed(TestFile("a\\b")) == TestFile("a/b")
  {
    Text.SplitWhole("a/b", '\\');
    Text.SplitWhole("a", '\\');
    Text.SplitWhole("b", '\\');
    Text.SplitAtSeparator("a", '\\', "b");
    assert "a\\b" == "a" + ['\\'] + "b";
    assert Text.Join(["a", "b"], '/') == "a" + ['/'] + Text.Join(["b"], '/');
    assert ["a", "b"][1..] == ["b"] && ["a"] + ["b"] == ["a", "b"];
  }

  /** An inventory that lists both includes this path twice. */
  lemma SlashesIncludeTwice(weights: map<TestFile, real>, nameAtMost: (TestFile, TestFile) -> bool,
                            assignments: seq<seq<TestFile>>, projectOf: map<TestFile, string>)
    requires Scheduled([TestFile("a/b"), TestFile("a\\b")], weights, nameAtMost, assignments)
    ensures Included(assignments, projectOf, TestFile("a/b")) == 2
  {
    var files := [TestFile("a/b"), TestFile("a\\b")];
    SamePath();
    IncludedAsListed(files, weights, nameAtMost, assignments, projectOf, TestFile("a/b"));
    assert AllSlashed(files) == [TestFile("a/b"), TestFile("a/b")];
  }

  /** Without two files of one path, each file is in one include list of one partition, once, and in no other. */
  lemma EachFileIncludedOnce(files: seq<TestFile>, weights: map<TestFile, real>,
                             nameAtMost: (TestFile, TestFile) -> bool, assignments: seq<seq<TestFile>>,
                             projectOf: map<TestFile, string>, f: TestFile)
    returns (partition: nat, project: bool)
    requires Scheduled(files, weights, nameAtMost, assignments)
    requires NoDuplicates(AllSlashed(files)) && f in files
    ensures partition < |assignments| && project == (f in projectOf && projectOf[f] == "process-bound")
    ensures forall p, q :: 0 <= p < |assignments| ==>
      multiset(IncludeList(assignments[p], projectOf, q))[Slashed(f)] == if p == partition && q == project then 1 else 0
  {
    ScheduleConserves(files, weights, nameAtMost, assignments);
    DistinctSlashes(files, f);
    NoDuplicatesMultiplicity(files, f);
    partition := OneHome(assignments, f);
    project := ProcessBound(projectOf, f);
    forall p, q | 0 <= p < |assignments|
      ensures multiset(IncludeList(assignments[p], projectOf, q))[Slashed(f)] ==
              if p == partition && q == project then 1 else 0
    {
      AssignedFromInventory(files, assignments, p, f);
      IncludeListCounts(assignments[p], projectOf, q, f);
    }
  }

  lemma AssignedFromInventory(files: seq<TestFile>, assignments: seq<seq<TestFile>>, p: nat, f: TestFile)
    requires FilesIn(assignments) == multiset(files) && p < |assignments| && OnlySlashed(files, f)
    ensures OnlySlashed(assignments[p], f)
  {
    forall x | x in assignments[p] ensures x in files {
      PartitionWithin(assignments, p, x);
      assert x in multiset(files);
    }
  }

  lemma {:induction false} PartitionWithin(assignments: seq<seq<TestFile>>, p: nat, x: TestFile)
    requires p < |assignments| && x in assignments[p]
    ensures x in FilesIn(assignments)
  {
    var n := |assignments| - 1;
    if p < n {
      PartitionWithin(assignments[..n], p, x);
    } else {
      assert x in multiset(assignments[n]);
    }
  }

  ghost function ReportedIn(reports: nat -> Report, partitions: nat): multiset<TestFile> {
    if partitions == 0 then multiset{}
    else ReportedIn(reports, partitions - 1) + multiset(Reported(reports(partitions - 1)))
  }

  lemma {:induction false} ReportsMatch(assignments: seq<seq<TestFile>>, reports: nat -> Report)
    requires forall i :: 0 <= i < |assignments| ==> multiset(Reported(reports(i))) == multiset(assignments[i])
    ensures ReportedIn(reports, |assignments|) == FilesIn(assignments)
  {
    if assignments != [] {
      var n := |assignments| - 1;
      assert multiset(Reported(reports(n))) == multiset(assignments[n]);
      ReportsMatch(assignments[..n], reports);
    }
  }

  lemma {:induction false} PartitionsWithoutDuplicates(assignments: seq<seq<TestFile>>, b: nat)
    requires forall f :: FilesIn(assignments)[f] <= 1
    requires b < |assignments|
    ensures NoDuplicates(assignments[b])
  {
    var n := |assignments| - 1;
    forall f: TestFile ensures FilesIn(assignments[..n])[f] <= 1 && multiset(assignments[n])[f] <= 1 {
      assert FilesIn(assignments)[f] <= 1;
    }
    if b == n {
      MultiplicityNoDuplicates(assignments[n]);
    } else {
      PartitionsWithoutDuplicates(assignments[..n], b);
    }
  }

  /**
   What a zero verdict stands for: no partition without files, one blob per partition and no other,
   each report accounting for its partition's files, and every command having exited with zero,
   without a signal and without an error.
   */
  lemma AcceptedIff(coordinator: CoveragePartitionCoordinator, world: World, assignments: seq<seq<TestFile>>)
    requires TotalOrder(coordinator.blobAtMost)
    ensures coordinator.Accepted(assignments, world) <==>
              && (forall i :: 0 <= i < |assignments| ==> assignments[i] != [])
              && multiset(world.blobs) == multiset(seq(|assignments|, i requires 0 <= i => coordinator.blobName(i + 1)))
              && (forall i :: 0 <= i < |assignments| ==> AccountsFor(world.reports(i), assignments[i]))
              && (forall i :: 0 <= i < |assignments| ==> world.results(i) == CommandResult(Some(0), None, None))
              && world.merge == CommandResult(Some(0), None, None)
  {
    var names := BlobNames(coordinator.blobName, |assignments|);
    assert names == seq(|assignments|, i requires 0 <= i => coordinator.blobName(i + 1));
    BlobsCompleteIff(world.blobs, names, coordinator.blobAtMost);
    forall i | 0 <= i < |assignments|
      ensures ReportAccepted(assignments[i], world.reports(i)) <==> AccountsFor(world.reports(i), assignments[i])
    {
      AcceptedIffAccounts(assignments[i], world.reports(i));
    }
  }

  /**
   A zero verdict over a duplicate-free inventory: each partition's report lists exactly the
   files assigned to it, and the reports together list every inventory file exactly once.
   */
  lemma ZeroAccountsForEveryFile(coordinator: CoveragePartitionCoordinator, world: World,
                                 assignments: seq<seq<TestFile>>)
    requires Scheduled(coordinator.RunFiles(world), coordinator.RunWeights(world), coordinator.nameAtMost, assignments)
    requires NoDuplicates(coordinator.RunFiles(world))
    requires coordinator.Accepted(assignments, world)
    ensures forall i :: 0 <= i < |assignments| ==> multiset(Reported(world.reports(i))) == multiset(assignments[i])
    ensures ReportedIn(world.reports, |assignments|) == multiset(coordinator.RunFiles(world))
    ensures forall f :: ReportedIn(world.reports, |assignments|)[f] == if f in coordinator.RunFiles(world) then 1 else 0
  {
    var files := coordinator.RunFiles(world);
    ScheduleConserves(files, coordinator.RunWeights(world), coordinator.nameAtMost, assignments);
    AcceptedReportsCount(files, assignments, world.reports);
  }

  lemma AcceptedReportsCount(files: seq<TestFile>, assignments: seq<seq<TestFile>>, reports: nat -> Report)
    requires NoDuplicates(files) && FilesIn(assignments) == multiset(files)
    requires forall i :: 0 <= i < |assignments| ==> ReportAccepted(assignments[i], reports(i))
    ensures forall i :: 0 <= i < |assignments| ==> multiset(Reported(reports(i))) == multiset(assignments[i])
    ensures ReportedIn(reports, |assignments|) == multiset(files)
    ensures forall f :: ReportedIn(reports, |assignments|)[f] == if f in files then 1 else 0
  {
    forall f: TestFile ensures multiset(files)[f] == if f in files then 1 else 0 {
      NoDuplicatesMultiplicity(files, f);
    }
    forall i | 0 <= i < |assignments| ensures multiset(Reported(reports(i))) == multiset(assignments[i]) {
      PartitionsWithoutDuplicates(assignments, i);
      ReportAcceptedIff(assignments[i], reports(i));
    }
    ReportsMatch(assignments, reports);
  }
}
