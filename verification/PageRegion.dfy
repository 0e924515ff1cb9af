/** The generated Cordis API region of a documentation page, line by line. */
module PageRegion {
  import opened Outcomes
  import opened Text

  /** The marker lines; they are two different lines. */
  datatype Markers<L> = Markers(begin: L, end: L)

  predicate Proper<L(==)>(m: Markers<L>) {
    m.begin != m.end
  }

  function Count<L(==)>(lines: seq<L>, line: L): nat {
    if lines == [] then 0 else Count(lines[..|lines| - 1], line) + if lines[|lines| - 1] == line then 1 else 0
  }

  /** The position of the last such line. */
  function LastOf<L(==)>(lines: seq<L>, line: L): (k: nat)
    requires line in lines
    ensures k < |lines| && lines[k] == line
  {
    if lines[|lines| - 1] == line then |lines| - 1 else LastOf(lines[..|lines| - 1], line)
  }

  lemma {:induction false} CountMeans<L>(lines: seq<L>, line: L)
    ensures Count(lines, line) > 0 <==> line in lines
  {
    if lines != [] {
      CountMeans(lines[..|lines| - 1], line);
      assert lines == lines[..|lines| - 1] + [lines[|lines| - 1]];
    }
  }

  lemma {:induction false} CountConcat<L>(xs: seq<L>, ys: seq<L>, line: L)
    ensures Count(xs + ys, line) == Count(xs, line) + Count(ys, line)
  {
    if ys == [] {
      assert xs + ys == xs;
    } else {
      var n := |ys| - 1;
      CountConcat(xs, ys[..n], line);
      assert (xs + ys)[..|xs + ys| - 1] == xs + ys[..n];
    }
  }

  datatype SpliceError = NotOneRegion(begins: nat, ends: nat) | EndBeforeBegin

  /** Exactly one line of each marker, the begin not behind the end. */
  predicate OneRegion<L(==)>(lines: seq<L>, m: Markers<L>) {
    Count(lines, m.begin) == 1 && Count(lines, m.end) == 1
  }

  /** The lines of a page with its region's lines replaced. */
  function Replaced<L(==)>(lines: seq<L>, m: Markers<L>, region: seq<L>): Result<seq<L>, SpliceError> {
    if !OneRegion(lines, m) then Failure(NotOneRegion(Count(lines, m.begin), Count(lines, m.end)))
    else
      CountMeans(lines, m.begin);
      CountMeans(lines, m.end);
      var begin, end := LastOf(lines, m.begin), LastOf(lines, m.end);
      if end < begin then Failure(EndBeforeBegin)
      else Success(lines[..begin] + region + lines[end + 1..])
  }

  // ---------------------------------------------------------------- where the region is

  lemma OneLine<L>(line: L, other: L)
    ensures Count([line], other) == if line == other then 1 else 0
  {
    assert [line][..0] == [];
  }

  /** A line that occurs once stands where it is found, and nowhere before or behind. */
  lemma OnlyAt<L>(lines: seq<L>, line: L)
    requires Count(lines, line) == 1
    ensures line in lines
    ensures var k := LastOf(lines, line);
            lines == lines[..k] + [line] + lines[k + 1..] && Count(lines[..k], line) == 0 &&
                Count(lines[k + 1..], line) == 0
  {
    CountMeans(lines, line);
    var k := LastOf(lines, line);
    assert lines == lines[..k] + [line] + lines[k + 1..];
    CountConcat(lines[..k] + [line], lines[k + 1..], line);
    CountConcat(lines[..k], [line], line);
    OneLine(line, line);
  }

  lemma FoundAt<L>(front: seq<L>, line: L, back: seq<L>)
    requires Count(front, line) == 0 && Count(back, line) == 0
    ensures var lines := front + [line] + back;
            Count(lines, line) == 1 && line in lines && LastOf(lines, line) == |front|
  {
    var lines := front + [line] + back;
    CountConcat(front + [line], back, line);
    CountConcat(front, [line], line);
    OneLine(line, line);
    OnlyAt(lines, line);
    CountMeans(front, line);
    CountMeans(back, line);
    forall i | 0 <= i < |lines| && i != |front| ensures lines[i] != line {
      if i < |front| {
        assert lines[i] == front[i];
      } else {
        assert lines[i] == back[i - |front| - 1];
      }
    }
  }

  /** Lines without markers around the place of the region. */
  ghost predicate Bare<L>(lines: seq<L>, m: Markers<L>) {
    Count(lines, m.begin) == 0 && Count(lines, m.end) == 0
  }

  lemma {:induction false} BarePrefix<L>(lines: seq<L>, n: nat, line: L)
    requires n <= |lines|
    ensures Count(lines[..n], line) <= Count(lines, line)
    ensures Count(lines[n..], line) <= Count(lines, line)
  {
    assert lines == lines[..n] + lines[n..];
    CountConcat(lines[..n], lines[n..], line);
  }

  /** The lines before and behind the region hold no marker, and the page is these around any region. */
  lemma AroundRegion<L>(lines: seq<L>, m: Markers<L>, region: seq<L>) returns (front: seq<L>, back: seq<L>)
    requires Proper(m) && Replaced(lines, m, region).Success?
    ensures Bare(front, m) && Bare(back, m)
    ensures front <= lines && |back| <= |lines| && back == lines[|lines| - |back|..]
    ensures forall other :: Replaced(lines, m, other) == Success(front + other + back)
  {
    OnlyAt(lines, m.begin);
    OnlyAt(lines, m.end);
    var begin, end := LastOf(lines, m.begin), LastOf(lines, m.end);
    front, back := lines[..begin], lines[end + 1..];
    NoneBefore(lines, m.end, begin, end);
    NoneBehind(lines, m.begin, begin, end);
  }

  lemma NoneBefore<L>(lines: seq<L>, line: L, begin: nat, end: nat)
    requires begin <= end <= |lines| && Count(lines[..end], line) == 0
    ensures Count(lines[..begin], line) == 0
  {
    assert lines[..end][..begin] == lines[..begin];
    BarePrefix(lines[..end], begin, line);
  }

  lemma NoneBehind<L>(lines: seq<L>, line: L, begin: nat, end: nat)
    requires begin <= end < |lines| && Count(lines[begin + 1..], line) == 0
    ensures Count(lines[end + 1..], line) == 0
  {
    assert lines[begin + 1..][end - begin..] == lines[end + 1..];
    BarePrefix(lines[begin + 1..], end - begin, line);
  }

  /** One begin marker and, behind it, one end marker. */
  ghost predicate Encloses<L>(lines: seq<L>, m: Markers<L>, front: seq<L>, inside: seq<L>, back: seq<L>) {
    && lines == front + [m.begin] + inside + [m.end] + back
    && Bare(front, m) && Bare(inside, m) && Bare(back, m)
  }

  /** A region is replaced exactly when the page holds each marker once, the begin before the end. */
  lemma ReplacedIffEnclosed<L>(lines: seq<L>, m: Markers<L>, region: seq<L>)
    requires Proper(m)
    ensures Replaced(lines, m, region).Success? <==>
              exists front, inside, back :: Encloses(lines, m, front, inside, back)
    ensures forall front, inside, back :: Encloses(lines, m, front, inside, back) ==>
              Replaced(lines, m, region) == Success(front + region + back)
  {
    forall front, inside, back | Encloses(lines, m, front, inside, back)
      ensures Replaced(lines, m, region) == Success(front + region + back)
    {
      EnclosedReplaced(lines, m, region, front, inside, back);
    }
    if Replaced(lines, m, region).Success? {
      var front, inside, back := EnclosedBy(lines, m, region);
    }
  }

  lemma EnclosedReplaced<L>(lines: seq<L>, m: Markers<L>, region: seq<L>, front: seq<L>, inside: seq<L>, back: seq<L>)
    requires Proper(m) && Encloses(lines, m, front, inside, back)
    ensures Replaced(lines, m, region) == Success(front + region + back)
  {
    var behind, before := inside + [m.end] + back, front + [m.begin] + inside;
    assert lines == front + [m.begin] + behind && lines == before + [m.end] + back;
    OneLine(m.begin, m.end);
    OneLine(m.end, m.begin);
    RegionCounts(inside, [m.end], back, m.begin);
    RegionCounts(front, [m.begin], inside, m.end);
    FoundAt(front, m.begin, behind);
    FoundAt(before, m.end, back);
    ReplacedAt(lines, m, region, |front|, |before|);
    assert lines[..|front|] == front && lines[|before| + 1..] == back;
  }

  lemma EnclosedBy<L>(lines: seq<L>, m: Markers<L>, region: seq<L>)
    returns (front: seq<L>, inside: seq<L>, back: seq<L>)
    requires Proper(m) && Replaced(lines, m, region).Success?
    ensures Encloses(lines, m, front, inside, back)
  {
    OnlyAt(lines, m.begin);
    OnlyAt(lines, m.end);
    var begin, end := LastOf(lines, m.begin), LastOf(lines, m.end);
    front, inside, back := lines[..begin], lines[begin + 1..end], lines[end + 1..];
    assert begin < end;
    NoneBefore(lines, m.end, begin, end);
    NoneBehind(lines, m.begin, begin, end);
    NoneBetween(lines, m, begin, end);
    AroundTwo(lines, begin, end);
  }

  lemma AroundTwo<L>(lines: seq<L>, i: nat, j: nat)
    requires i < j < |lines|
    ensures lines == lines[..i] + [lines[i]] + lines[i + 1..j] + [lines[j]] + lines[j + 1..]
  {
  }

  lemma NoneBetween<L>(lines: seq<L>, m: Markers<L>, begin: nat, end: nat)
    requires begin < end < |lines|
    requires Count(lines[begin + 1..], m.begin) == 0 && Count(lines[..end], m.end) == 0
    ensures Bare(lines[begin + 1..end], m)
  {
    assert lines[begin + 1..][..end - begin - 1] == lines[begin + 1..end];
    assert lines[..end][begin + 1..] == lines[begin + 1..end];
    BarePrefix(lines[begin + 1..], end - begin - 1, m.begin);
    BarePrefix(lines[..end], begin + 1, m.end);
  }

  /** A region of its own: it starts and ends with its markers, each of which it holds once. */
  predicate OwnRegion<L(==)>(region: seq<L>, m: Markers<L>) {
    region != [] && region[0] == m.begin && region[|region| - 1] == m.end && OneRegion(region, m)
  }

  lemma RegionCounts<L>(front: seq<L>, region: seq<L>, back: seq<L>, line: L)
    requires Count(front, line) == 0 && Count(back, line) == 0
    ensures Count(front + region + back, line) == Count(region, line)
  {
    CountConcat(front + region, back, line);
    CountConcat(front, region, line);
  }

  lemma RegroupAround<L>(front: seq<L>, x: seq<L>, line: L, y: seq<L>, back: seq<L>)
    ensures front + (x + [line] + y) + back == (front + x) + [line] + (y + back)
  {
  }

  lemma FoundInRegion<L>(front: seq<L>, region: seq<L>, back: seq<L>, line: L)
    requires Count(front, line) == 0 && Count(back, line) == 0 && Count(region, line) == 1
    ensures line in region && line in front + region + back
    ensures LastOf(front + region + back, line) == |front| + LastOf(region, line)
  {
    OnlyAt(region, line);
    var k := LastOf(region, line);
    var x, y := region[..k], region[k + 1..];
    CountConcat(front, x, line);
    CountConcat(y, back, line);
    FoundAt(front + x, line, y + back);
    RegroupAround(front, x, line, y, back);
  }

  lemma SlicesAround<L>(front: seq<L>, region: seq<L>, back: seq<L>, b: nat, e: nat)
    requires b <= |region| && e <= |region|
    ensures (front + region + back)[..|front| + b] == front + region[..b]
    ensures (front + region + back)[|front| + e..] == region[e..] + back
  {
  }

  lemma OneRegionAround<L>(front: seq<L>, region: seq<L>, back: seq<L>, m: Markers<L>)
    requires Bare(front, m) && Bare(back, m)
    ensures OneRegion(front + region + back, m) <==> OneRegion(region, m)
  {
    RegionCounts(front, region, back, m.begin);
    RegionCounts(front, region, back, m.end);
  }

  lemma ReplacedAt<L>(lines: seq<L>, m: Markers<L>, other: seq<L>, b: nat, e: nat)
    requires OneRegion(lines, m) && m.begin in lines && m.end in lines
    requires LastOf(lines, m.begin) == b && LastOf(lines, m.end) == e
    ensures Replaced(lines, m, other) ==
            if e < b then Failure(EndBeforeBegin) else Success(lines[..b] + other + lines[e + 1..])
  {
  }

  /** What splicing into a page whose region was replaced by `region` gives. */
  function SplicedInto<L(==)>(
    front: seq<L>, region: seq<L>, back: seq<L>, m: Markers<L>, other: seq<L>): Result<seq<L>, SpliceError>
    requires m.begin in region && m.end in region
  {
    var b, e := LastOf(region, m.begin), LastOf(region, m.end);
    if e < b then Failure(EndBeforeBegin) else Success((front + region[..b]) + other + (region[e + 1..] + back))
  }

  lemma SpliceInto<L>(front: seq<L>, region: seq<L>, back: seq<L>, m: Markers<L>, other: seq<L>)
    requires Bare(front, m) && Bare(back, m) && OneRegion(region, m)
    ensures m.begin in region && m.end in region
    ensures Replaced(front + region + back, m, other) == SplicedInto(front, region, back, m, other)
  {
    var lines := front + region + back;
    OneRegionAround(front, region, back, m);
    FoundInRegion(front, region, back, m.begin);
    FoundInRegion(front, region, back, m.end);
    var b, e := LastOf(region, m.begin), LastOf(region, m.end);
    ReplacedAt(lines, m, other, |front| + b, |front| + e);
    SlicesAround(front, region, back, b, e + 1);
    assert |front| + (e + 1) == |front| + e + 1;
  }

  lemma SameAround<L>(front: seq<L>, x: seq<L>, second: seq<L>, y: seq<L>, back: seq<L>)
    ensures (front + x) + second + (y + back) == front + second + back <==> x == [] && y == []
  {
    if x == [] && y == [] {
      assert front + x == front && y + back == back;
    } else {
      assert |(front + x) + second + (y + back)| > |front + second + back|;
    }
  }

  /** Replacing the region twice is replacing it by the second, exactly when the first is a region of its own. */
  lemma ReplacedTwice<L>(lines: seq<L>, m: Markers<L>, first: seq<L>, second: seq<L>)
    requires Proper(m) && Replaced(lines, m, first).Success?
    ensures Replaced(Replaced(lines, m, first).value, m, second) == Replaced(lines, m, second) <==> OwnRegion(first, m)
  {
    var front, back := AroundRegion(lines, m, first);
    OneRegionAround(front, first, back, m);
    if OneRegion(first, m) {
      SpliceInto(front, first, back, m, second);
      OnlyRegion(first, m);
      var b, e := LastOf(first, m.begin), LastOf(first, m.end);
      SameAround(front, first[..b], second, first[e + 1..], back);
    }
  }

  lemma BareRegion<L>(m: Markers<L>)
    requires Proper(m)
    ensures var page := [m.begin, m.end];
            OneRegion(page, m) && LastOf(page, m.begin) == 0 && LastOf(page, m.end) == 1
  {
    assert [m.begin, m.end] == [] + [m.begin] + [m.end];
    assert [m.begin, m.end] == [m.begin] + [m.end] + [];
    OneLine(m.begin, m.end);
    OneLine(m.end, m.begin);
    FoundAt([], m.begin, [m.end]);
    FoundAt([m.begin], m.end, []);
  }

  lemma BareReplaced<L>(m: Markers<L>, other: seq<L>)
    requires Proper(m)
    ensures Replaced([m.begin, m.end], m, other) == Success(other)
  {
    var page := [m.begin, m.end];
    BareRegion(m);
    ReplacedAt(page, m, other, 0, 1);
    assert page[..0] + other + page[2..] == other;
  }

  lemma WithExtraReplaced<L>(m: Markers<L>, extra: L, other: seq<L>)
    requires Proper(m) && extra != m.begin && extra != m.end
    ensures var first := [m.begin, m.end, extra];
            OneRegion(first, m) && Replaced(first, m, other) == Success(other + [extra])
  {
    var first := [m.begin, m.end, extra];
    assert first == [] + [m.begin] + [m.end, extra] && first == [m.begin] + [m.end] + [extra];
    assert [m.end, extra] == [m.end] + [extra];
    CountConcat([m.end], [extra], m.begin);
    OneLine(m.begin, m.end);
    OneLine(m.end, m.begin);
    OneLine(extra, m.begin);
    OneLine(extra, m.end);
    FoundAt([], m.begin, [m.end, extra]);
    FoundAt([m.begin], m.end, [extra]);
    ReplacedAt(first, m, other, 0, 1);
    assert first[..0] + other + first[2..] == other + [extra];
  }

  /** Holding each marker once is not enough: a line behind the end marker survives the next splice. */
  lemma ExtraLineSurvives<L>(m: Markers<L>, extra: L, second: seq<L>)
    requires Proper(m) && extra != m.begin && extra != m.end
    ensures var page, first := [m.begin, m.end], [m.begin, m.end, extra];
            && OneRegion(first, m) && Replaced(page, m, first) == Success(first)
            && Replaced(page, m, second) == Success(second)
            && Replaced(first, m, second) == Success(second + [extra])
  {
    BareReplaced(m, [m.begin, m.end, extra]);
    BareReplaced(m, second);
    WithExtraReplaced(m, extra, second);
  }

  /** Where the markers of a region of its own are found. */
  lemma OnlyRegion<L>(region: seq<L>, m: Markers<L>)
    requires Proper(m) && OneRegion(region, m)
    ensures m.begin in region && m.end in region
    ensures OwnRegion(region, m) <==> LastOf(region, m.begin) == 0 && LastOf(region, m.end) == |region| - 1
  {
    OnlyAt(region, m.begin);
    OnlyAt(region, m.end);
    if region[0] == m.begin {
      FirstIsOnly(region, m.begin);
    }
  }

  lemma FirstIsOnly<L>(region: seq<L>, line: L)
    requires region != [] && region[0] == line && Count(region, line) == 1
    ensures line in region && LastOf(region, line) == 0
  {
    assert region == [] + [line] + region[1..];
    CountConcat([line], region[1..], line);
    OneLine(line, line);
    FoundAt([], line, region[1..]);
  }

  // ---------------------------------------------------------------- pages as text

  function Splice(content: string, m: Markers<string>, region: string): Result<string, SpliceError> {
    match Replaced(Split(content, '\n'), m, Split(region, '\n'))
    case Failure(e) => Failure(e)
    case Success(lines) => Success(Join(lines, '\n'))
  }

  ghost predicate NoBreaks(lines: seq<string>) {
    forall i :: 0 <= i < |lines| ==> '\n' !in lines[i]
  }

  lemma JoinedAlike(xs: seq<string>, ys: seq<string>)
    requires xs != [] && ys != [] && NoBreaks(xs) && NoBreaks(ys)
    ensures Join(xs, '\n') == Join(ys, '\n') <==> xs == ys
  {
    SplitJoin(xs, '\n');
    SplitJoin(ys, '\n');
  }

  /** A replaced page is made of lines. */
  lemma ReplacedLines(content: string, m: Markers<string>, region: string)
    requires Proper(m) && Replaced(Split(content, '\n'), m, Split(region, '\n')).Success?
    ensures var lines := Replaced(Split(content, '\n'), m, Split(region, '\n')).value;
            lines != [] && NoBreaks(lines) && Split(Join(lines, '\n'), '\n') == lines
  {
    var lines := Replaced(Split(content, '\n'), m, Split(region, '\n')).value;
    PiecesHaveNoSeparator(content, '\n');
    PiecesHaveNoSeparator(region, '\n');
    SplitJoin(lines, '\n');
  }

  /**
   Splicing one region over another is splicing it into the original page, exactly when the first
   starts with the begin marker, ends with the end marker, and holds each once.
   */
  lemma SpliceTwice(content: string, m: Markers<string>, first: string, second: string)
    requires Proper(m) && Splice(content, m, first).Success?
    ensures Splice(Splice(content, m, first).value, m, second) == Splice(content, m, second)
            <==> OwnRegion(Split(first, '\n'), m)
  {
    var lines, region, other := Split(content, '\n'), Split(first, '\n'), Split(second, '\n');
    var once := Replaced(lines, m, region);
    ReplacedLines(content, m, first);
    ReplacedTwice(lines, m, region, other);
    var _, _ := AroundRegion(lines, m, region);
    ReplacedLines(content, m, second);
    var u := Join(once.value, '\n');
    var again := Replaced(once.value, m, other);
    if again.Success? {
      ReplacedLines(u, m, second);
      JoinedAlike(again.value, Replaced(lines, m, other).value);
    }
  }

  /** The lines around the region stay as they were. */
  lemma SpliceKeepsOutside(content: string, m: Markers<string>, region: string)
    returns (front: seq<string>, back: seq<string>)
    requires Proper(m) && Splice(content, m, region).Success?
    ensures Bare(front, m) && Bare(back, m)
    ensures Split(Splice(content, m, region).value, '\n') == front + Split(region, '\n') + back
    ensures var lines := Split(content, '\n');
            |front| + |back| < |lines| && front == lines[..|front|] && back == lines[|lines| - |back|..]
  {
    front, back := AroundRegion(Split(content, '\n'), m, Split(region, '\n'));
    ReplacedLines(content, m, region);
  }
}
