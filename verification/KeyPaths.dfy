/**
 Key paths of a configuration schema: how the schema walk prints them and how the presence
 check parses them back.
 */
module KeyPaths {
  import opened Text
  import opened TypeLookup

  // ---------------------------------------------------------------- parsing

  predicate EndsInBrackets(name: string) {
    |name| >= 2 && name[|name| - 2..] == "[]"
  }

  function Elements(n: nat): seq<Step> {
    seq(n, _ => Element)
  }

  /** One dot-free segment: a member, then a hop for every trailing pair of brackets. */
  function ParseSegment(segment: string): (steps: seq<Step>)
    ensures steps != [] && steps[0].Member?
  {
    if EndsInBrackets(segment) then ParseSegment(segment[..|segment| - 2]) + [Element] else [Member(segment)]
  }

  function ParseSegments(segments: seq<string>): seq<Step> {
    if segments == [] then []
    else ParseSegments(segments[..|segments| - 1]) + ParseSegment(segments[|segments| - 1])
  }

  function Parse(path: string): seq<Step> {
    ParseSegments(Split(path, '.'))
  }

  lemma {:induction false} SegmentByCounting(segment: string, arrays: nat)
    ensures ParseSegment(segment) + Elements(arrays) ==
            if EndsInBrackets(segment) then ParseSegment(segment[..|segment| - 2]) + Elements(arrays + 1)
            else [Member(segment)] + Elements(arrays)
  {
    assert [Element] + Elements(arrays) == Elements(arrays + 1);
    if EndsInBrackets(segment) {
      var front := ParseSegment(segment[..|segment| - 2]);
      assert (front + [Element]) + Elements(arrays) == front + ([Element] + Elements(arrays));
    }
  }

  /**
   The steps that a key names: a member for each text between dots, and an array hop for each pair
   of brackets behind it.
   */
  method ParsePath(path: string) returns (steps: seq<Step>)
    ensures steps == Parse(path)
  {
    var segments := Split(path, '.');
    steps := [];
    for n := 0 to |segments|
      invariant steps == ParseSegments(segments[..n])
    {
      var name, arrays := segments[n], 0;
      while EndsInBrackets(name)
        invariant ParseSegment(segments[n]) == ParseSegment(name) + Elements(arrays)
        decreases |name|
      {
        SegmentByCounting(name, arrays);
        name := name[..|name| - 2];
        arrays := arrays + 1;
      }
      SegmentByCounting(name, arrays);
      ghost var before := steps;
      steps := steps + [Member(name)];
      for i := 0 to arrays
        invariant steps == before + [Member(name)] + Elements(i)
      {
        assert Elements(i) + [Element] == Elements(i + 1);
        steps := steps + [Element];
      }
      assert before + [Member(name)] + Elements(arrays) == before + ParseSegment(segments[n]);
      assert segments[..n + 1][..n] == segments[..n];
    }
    assert segments[..|segments|] == segments;
  }

  // ---------------------------------------------------------------- printing

  /** A path as the walk spells it: members joined by dots, a pair of brackets for an array hop. */
  function Print(steps: seq<Step>): string {
    if steps == [] then ""
    else
      var n := |steps| - 1;
      match steps[n]
      case Element => Print(steps[..n]) + "[]"
      case Member(name) => if n == 0 then name else Print(steps[..n]) + "." + name
  }

  lemma Regroup(x: seq<Step>, y: seq<Step>, z: seq<Step>)
    ensures (x + y) + z == x + (y + z)
  {
  }

  lemma ParseSegmentsSnoc(segments: seq<string>, last: string)
    ensures ParseSegments(segments + [last]) == ParseSegments(segments) + ParseSegment(last)
  {
    assert (segments + [last])[..|segments|] == segments;
  }

  lemma {:induction false} ParseSegmentsConcat(xs: seq<string>, ys: seq<string>)
    ensures ParseSegments(xs + ys) == ParseSegments(xs) + ParseSegments(ys)
  {
    if ys == [] {
      assert xs + ys == xs;
    } else {
      var front, last := ys[..|ys| - 1], ys[|ys| - 1];
      ParseSegmentsConcat(xs, front);
      assert xs + ys == (xs + front) + [last];
      ParseSegmentsSnoc(xs + front, last);
      Regroup(ParseSegments(xs), ParseSegments(front), ParseSegment(last));
    }
  }

  /** A dot ends the steps of the path before it. */
  lemma ParseAtDot(path: string, name: string)
    ensures Parse(path + "." + name) == Parse(path) + Parse(name)
  {
    SplitAtSeparator(path, '.', name);
    ParseSegmentsConcat(Split(path, '.'), Split(name, '.'));
  }

  /** A pair of brackets adds one array hop, whatever is before it. */
  lemma ParseAtBrackets(path: string)
    ensures Parse(path + "[]") == Parse(path) + [Element]
  {
    var pieces := Split(path, '.');
    var front, last := pieces[..|pieces| - 1], pieces[|pieces| - 1];
    SplitExtendsLast(path, '.', "[]");
    assert (last + "[]")[..|last|] == last && (last + "[]")[|last|..] == "[]";
    assert ParseSegment(last + "[]") == ParseSegment(last) + [Element];
    ParseSegmentsSnoc(front, last + "[]");
    assert pieces == front + [last];
    ParseSegmentsSnoc(front, last);
    Regroup(ParseSegments(front), ParseSegment(last), [Element]);
  }

  /** What parsing makes of one printed step. */
  function ReparsedStep(step: Step): seq<Step> {
    if step.Element? then [Element] else Parse(step.name)
  }

  /** What parsing makes of a printed path: each member name is parsed in its place. */
  function Reparsed(steps: seq<Step>): seq<Step> {
    if steps == [] then []
    else
      var n := |steps| - 1;
      Reparsed(steps[..n]) + ReparsedStep(steps[n])
  }

  lemma ParsePrintedSnoc(front: seq<Step>, step: Step)
    requires front != []
    ensures Parse(Print(front + [step])) == Parse(Print(front)) + ReparsedStep(step)
  {
    assert (front + [step])[..|front|] == front;
    match step
    case Element => ParseAtBrackets(Print(front));
    case Member(name) => ParseAtDot(Print(front), name);
  }

  lemma {:induction false} ParsePrinted(steps: seq<Step>)
    requires steps != [] && steps[0].Member?
    ensures Parse(Print(steps)) == Reparsed(steps)
  {
    var n := |steps| - 1;
    if n == 0 {
      assert Reparsed(steps[..0]) == [];
      assert [] + Parse(steps[0].name) == Parse(steps[0].name);
    } else {
      var front := steps[..n];
      assert front[0] == steps[0] && steps == front + [steps[n]];
      ParsePrinted(front);
      ParsePrintedSnoc(front, steps[n]);
    }
  }

  /** A key that the path syntax does not touch. */
  predicate Clean(name: string) {
    '.' !in name && !EndsInBrackets(name)
  }

  lemma {:induction false} ParseSegmentsLength(segments: seq<string>)
    ensures |ParseSegments(segments)| >= |segments|
  {
    if segments != [] {
      ParseSegmentsLength(segments[..|segments| - 1]);
    }
  }

  lemma SplitsInTwo(name: string)
    requires '.' in name
    ensures |Split(name, '.')| >= 2
  {
    var i :| 0 <= i < |name| && name[i] == '.';
    assert name == name[..i] + "." + name[i + 1..];
    SplitAtSeparator(name[..i], '.', name[i + 1..]);
  }

  /** Exactly the clean names parse to a single step, which is the member they name. */
  lemma CleanParses(name: string)
    ensures |Parse(name)| >= 1
    ensures Clean(name) <==> |Parse(name)| == 1
    ensures Clean(name) ==> Parse(name) == [Member(name)]
  {
    var segments := Split(name, '.');
    ParseSegmentsLength(segments);
    if '.' in name {
      SplitsInTwo(name);
    } else {
      SplitWhole(name, '.');
      assert ParseSegments([name][..0]) == [];
      assert Parse(name) == ParseSegment(name);
    }
  }

  ghost predicate AllClean(steps: seq<Step>) {
    forall i :: 0 <= i < |steps| && steps[i].Member? ==> Clean(steps[i].name)
  }

  lemma StepIffClean(step: Step)
    ensures |ReparsedStep(step)| >= 1
    ensures |ReparsedStep(step)| == 1 <==> (step.Member? ==> Clean(step.name))
    ensures |ReparsedStep(step)| == 1 ==> ReparsedStep(step) == [step]
  {
    if step.Member? {
      CleanParses(step.name);
    }
  }

  lemma {:induction false} ReparsedIffClean(steps: seq<Step>)
    ensures |Reparsed(steps)| >= |steps|
    ensures AllClean(steps) ==> Reparsed(steps) == steps
    ensures !AllClean(steps) ==> |Reparsed(steps)| > |steps|
  {
    if steps != [] {
      var front, last := steps[..|steps| - 1], steps[|steps| - 1];
      ReparsedIffClean(front);
      StepIffClean(last);
      AllCleanSnoc(steps);
      ReparsedJoins(steps, Reparsed(front), ReparsedStep(last), AllClean(front));
    }
  }

  lemma AllCleanSnoc(steps: seq<Step>)
    requires steps != []
    ensures var last := steps[|steps| - 1];
            AllClean(steps) <==> AllClean(steps[..|steps| - 1]) && (last.Member? ==> Clean(last.name))
  {
    var front := steps[..|steps| - 1];
    if AllClean(steps) {
      forall i | 0 <= i < |front| && front[i].Member? ensures Clean(front[i].name) {
        assert front[i] == steps[i];
      }
    }
  }

  /** Lengths add up, and nothing is added exactly when nothing is on either side. */
  lemma ReparsedJoins(steps: seq<Step>, front: seq<Step>, last: seq<Step>, frontClean: bool)
    requires steps != []
    requires |front| >= |steps| - 1 && |last| >= 1
    requires if frontClean then front == steps[..|steps| - 1] else |front| > |steps| - 1
    requires |last| == 1 ==> last == [steps[|steps| - 1]]
    ensures |front + last| >= |steps|
    ensures if frontClean && |last| == 1 then front + last == steps else |front + last| > |steps|
  {
  }

  /** The round trip, and exactly when it holds: when no key holds a dot or ends in brackets. */
  lemma RoundTripIffClean(steps: seq<Step>)
    requires steps != [] && steps[0].Member?
    ensures Parse(Print(steps)) == steps <==> AllClean(steps)
  {
    ParsePrinted(steps);
    ReparsedIffClean(steps);
  }
}
