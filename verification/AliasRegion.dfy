/** The generated region of the path aliases in `tsconfig.base.json`. */
module AliasRegion {
  import opened Outcomes
  import opened Text

  const COMMENT := "      //"

  const BEGIN_FIRST := " BEGIN generated"

  const BEGIN_THEN := " package aliases \U{2014}"

  const BEGIN_COMMAND := " pnpm run gen-tsconfig"

  const BEGIN_END := "-paths"

  const END_WORDS := " END generated package aliases"

  const BEGIN := COMMENT + BEGIN_FIRST + BEGIN_THEN + BEGIN_COMMAND + BEGIN_END

  const END := COMMENT + END_WORDS

  lemma CommentChars()
    ensures |COMMENT| == 8 && COMMENT[6] == '/' && COMMENT[7] == '/' && forall i :: 0 <= i < 6 ==> COMMENT[i] == ' '
  {
  }

  lemma BeginChars()
    ensures '/' !in BEGIN_FIRST && '/' !in BEGIN_THEN && '/' !in BEGIN_COMMAND && '/' !in BEGIN_END
    ensures ' ' !in BEGIN_END && |BEGIN_END| == 6
    ensures |BEGIN_FIRST| > 1 && BEGIN_FIRST[0] == ' ' && BEGIN_FIRST[1] == 'B'
  {
  }

  lemma BehindComment(k: nat)
    requires |COMMENT| <= k < |BEGIN|
    ensures BEGIN[k] != '/'
  {
    BeginChars();
    var words := BEGIN_FIRST + BEGIN_THEN + BEGIN_COMMAND + BEGIN_END;
    assert BEGIN == COMMENT + words;
    assert words[k - |COMMENT|] in words;
  }

  lemma EndChars()
    ensures |END_WORDS| > 1 && END_WORDS[1] == 'E'
    ensures 0 < |END| < |BEGIN| && '\n' !in END && ',' !in END && '"' !in END
  {
  }

  // ---------------------------------------------------------------- rewriting between markers

  datatype Markers = Markers(begin: string, end: string)

  const ALIAS_MARKERS := Markers(BEGIN, END)

  /** The place `j` tells an end marker that starts at `k` on the begin marker from the begin marker. */
  predicate Differs(m: Markers, k: nat, j: nat) {
    k + j < |m.begin| && j < |m.end| && m.begin[k + j] != m.end[j]
  }

  /** Markers on one line each, of which the end cannot start on the begin. */
  ghost predicate Distinct(m: Markers) {
    && 0 < |m.end| < |m.begin| && '\n' !in m.end
    && forall k: nat :: k < |m.begin| ==> Clash(m, k)
  }

  ghost predicate Clash(m: Markers, k: nat) {
    exists j: nat :: Differs(m, k, j)
  }

  /** Where the region of a text starts and where its end marker stands. */
  datatype Place = Place(begin: nat, end: nat)

  predicate Fits(text: string, m: Markers, p: Place) {
    p.begin <= |text| && p.end + |m.end| <= |text|
  }

  function PlaceOf(text: string, m: Markers): (p: Option<Place>)
    ensures p.Some? ==> Fits(text, m, p.value)
  {
    var begin, end := Find(text, m.begin), Find(text, m.end);
    if begin.None? || end.None? || end.value < begin.value then None else Some(Place(begin.value, end.value))
  }

  lemma PlaceIsFirst(text: string, m: Markers, p: Place)
    requires PlaceOf(text, m) == Some(p)
    ensures First(text, m.begin, p.begin) && First(text, m.end, p.end) && p.begin <= p.end
  {
    FindMeans(text, m.begin);
    FindMeans(text, m.end);
  }

  lemma PlaceMeans(text: string, m: Markers)
    ensures var p := PlaceOf(text, m);
            p.Some? ==>
              && First(text, m.begin, p.value.begin) && First(text, m.end, p.value.end)
              && p.value.begin <= p.value.end
    ensures forall p: Place :: First(text, m.begin, p.begin) && First(text, m.end, p.end) && p.begin <= p.end ==>
              PlaceOf(text, m) == Some(p)
  {
    FindMeans(text, m.begin);
    FindMeans(text, m.end);
    forall p: Place | First(text, m.begin, p.begin) && First(text, m.end, p.end) && p.begin <= p.end
      ensures PlaceOf(text, m) == Some(p)
    {
      FirstIsFound(text, m.begin, p.begin);
      FirstIsFound(text, m.end, p.end);
    }
  }

  /** The text up to and with the begin marker, and the text behind the end marker. */
  function Before(text: string, m: Markers, p: Place): string
    requires p.begin <= |text|
  {
    text[..p.begin] + m.begin
  }

  function Behind(text: string, m: Markers, p: Place): string
    requires p.end + |m.end| <= |text|
  {
    text[p.end + |m.end|..]
  }

  function Around(before: string, body: string, m: Markers, behind: string): string {
    before + ("\n" + body + "\n") + (m.end + behind)
  }

  /** The text with a new body between its markers. */
  function Rewrite(text: string, m: Markers, body: string): Option<string> {
    match PlaceOf(text, m)
    case None => None
    case Some(p) => Some(Around(Before(text, m, p), body, m, Behind(text, m, p)))
  }

  /** No end marker starts on a begin marker. */
  lemma NoEndOnBegin(text: string, m: Markers, b: nat, e: nat)
    requires Distinct(m) && At(text, m.begin, b) && b <= e < b + |m.begin|
    ensures !At(text, m.end, e)
  {
    assert Clash(m, e - b);
    var j: nat :| Differs(m, e - b, j);
    AtPoint(text, m.begin, b, e - b + j);
    if At(text, m.end, e) {
      AtPoint(text, m.end, e, j);
    }
  }

  /** The end marker stands behind the whole begin marker. */
  lemma EndBehindBegin(text: string, m: Markers, p: Place)
    requires Distinct(m) && At(text, m.begin, p.begin) && At(text, m.end, p.end) && p.begin <= p.end
    ensures p.begin + |m.begin| <= p.end
  {
    if p.end < p.begin + |m.begin| {
      NoEndOnBegin(text, m, p.begin, p.end);
    }
  }

  /** In a rewritten text the first begin marker is where it was. */
  lemma BeginStays(text: string, m: Markers, p: Place, rest: string)
    requires First(text, m.begin, p.begin)
    ensures Find(Before(text, m, p) + rest, m.begin) == Some(p.begin)
  {
    var before, b := Before(text, m, p), p.begin;
    assert before == text[..b + |m.begin|] && text == before + text[b + |m.begin|..];
    AtInFront(before, rest, m.begin, b);
    AtInFront(before, text[b + |m.begin|..], m.begin, b);
    forall j: nat | j < b ensures !At(before + rest, m.begin, j) {
      AtInFront(before, rest, m.begin, j);
      AtInFront(before, text[b + |m.begin|..], m.begin, j);
    }
    FirstIsFound(before + rest, m.begin, b);
  }

  /** No end marker starts before the body. */
  lemma NoEndBefore(text: string, m: Markers, p: Place, rest: string, j: nat)
    requires Distinct(m) && First(text, m.begin, p.begin) && First(text, m.end, p.end) && p.begin <= p.end
    requires j < |Before(text, m, p)|
    ensures !At(Before(text, m, p) + rest, m.end, j)
  {
    var before, b := Before(text, m, p), p.begin;
    assert before == text[..b + |m.begin|] && text == before + text[b + |m.begin|..];
    EndBehindBegin(text, m, p);
    if j + |m.end| <= |before| {
      AtInFront(before, rest, m.end, j);
      AtInFront(before, text[b + |m.begin|..], m.end, j);
    } else {
      AtInFront(before, rest, m.begin, b);
      AtInFront(before, text[b + |m.begin|..], m.begin, b);
      NoEndOnBegin(before + rest, m, b, j);
    }
  }

  /** Between the markers, an end marker stands in the body or nowhere. */
  lemma EndInBody(body: string, m: Markers, rest: string, i: nat)
    requires Distinct(m) && i < |body| + 2
    ensures At("\n" + body + "\n" + rest, m.end, i) <==> 0 < i && At(body, m.end, i - 1)
  {
    var all := "\n" + body + "\n" + rest;
    if i == 0 {
      NotAcross("", '\n', body + "\n" + rest, m.end, 0);
      assert all == "" + ['\n'] + (body + "\n" + rest);
    } else {
      assert all == "\n" + (body + "\n" + rest);
      AtBehind("\n", body + "\n" + rest, m.end, i - 1);
      if i - 1 + |m.end| <= |body| {
        assert body + "\n" + rest == body + ("\n" + rest);
        AtInFront(body, "\n" + rest, m.end, i - 1);
      } else {
        NotAcross(body, '\n', rest, m.end, i - 1);
      }
    }
  }

  function Lines(body: string): string {
    "\n" + body + "\n"
  }

  /** The first end marker of a rewritten text, when the body holds none: the one that was written. */
  lemma WrittenEndIsFirst(text: string, m: Markers, p: Place, body: string, behind: string)
    requires Distinct(m) && First(text, m.begin, p.begin) && First(text, m.end, p.end) && p.begin <= p.end
    requires !Occurs(body, m.end)
    ensures First(Around(Before(text, m, p), body, m, behind), m.end, |Before(text, m, p)| + |Lines(body)|)
  {
    var before, lines, rest := Before(text, m, p), Lines(body), m.end + behind;
    var u := before + lines + rest;
    assert u == before + (lines + rest);
    AtBehind(before + lines, rest, m.end, 0);
    assert rest[0..|m.end|] == m.end;
    forall j: nat | j < |before| + |lines| ensures !At(u, m.end, j) {
      if j < |before| {
        NoEndBefore(text, m, p, lines + rest, j);
      } else {
        AtBehind(before, lines + rest, m.end, j - |before|);
        EndInBody(body, m, rest, j - |before|);
      }
    }
  }

  /** When the body holds an end marker, its first one comes first. */
  lemma BodyEndIsFirst(text: string, m: Markers, p: Place, body: string, behind: string, k: nat)
    requires Distinct(m) && First(text, m.begin, p.begin) && First(text, m.end, p.end) && p.begin <= p.end
    requires First(body, m.end, k)
    ensures First(Around(Before(text, m, p), body, m, behind), m.end, |Before(text, m, p)| + 1 + k)
  {
    var before, lines, rest := Before(text, m, p), Lines(body), m.end + behind;
    var u := before + lines + rest;
    assert u == before + (lines + rest);
    AtBehind(before, lines + rest, m.end, 1 + k);
    EndInBody(body, m, rest, 1 + k);
    forall j: nat | j < |before| + 1 + k ensures !At(u, m.end, j) {
      if j < |before| {
        NoEndBefore(text, m, p, lines + rest, j);
      } else {
        AtBehind(before, lines + rest, m.end, j - |before|);
        EndInBody(body, m, rest, j - |before|);
      }
    }
  }

  /** A text with a new body has its region from the same begin marker to the end marker at `end`. */
  predicate PlacedTo(text: string, m: Markers, p: Place, body: string, end: nat)
    requires Fits(text, m, p)
  {
    var u, q := Around(Before(text, m, p), body, m, Behind(text, m, p)), Place(p.begin, end);
    PlaceOf(u, m) == Some(q) && Fits(u, m, q) && Before(u, m, q) == Before(text, m, p)
  }

  lemma PlaceRewritten(text: string, m: Markers, p: Place, body: string, end: nat)
    requires Distinct(m) && PlaceOf(text, m) == Some(p)
    requires Find(Around(Before(text, m, p), body, m, Behind(text, m, p)), m.end) == Some(end) &&
             |Before(text, m, p)| <= end
    ensures PlacedTo(text, m, p, body, end)
  {
    var before, rest := Before(text, m, p), Lines(body) + (m.end + Behind(text, m, p));
    var u := Around(before, body, m, Behind(text, m, p));
    PlaceIsFirst(text, m, p);
    assert u == before + rest;
    BeginStays(text, m, p, rest);
    SameFront(text[..p.begin], m.begin, rest, u);
    SamePlace(text, u, m, p, Place(p.begin, end));
  }

  lemma SamePlace(text: string, u: string, m: Markers, p: Place, q: Place)
    requires Fits(text, m, p) && q.begin == p.begin <= |u| && u[..p.begin] == text[..p.begin]
    ensures Before(u, m, q) == Before(text, m, p)
  {
  }

  lemma SameFront(front: string, begin: string, rest: string, u: string)
    requires u == (front + begin) + rest
    ensures |u| >= |front| && u[..|front|] == front
  {
  }

  lemma WrittenEndFound(text: string, m: Markers, p: Place, body: string, behind: string)
    requires Distinct(m) && PlaceOf(text, m) == Some(p) && !Occurs(body, m.end)
    ensures Find(Around(Before(text, m, p), body, m, behind), m.end) == Some(|Before(text, m, p)| + |Lines(body)|)
  {
    PlaceIsFirst(text, m, p);
    WrittenEndIsFirst(text, m, p, body, behind);
    FirstIsFound(Around(Before(text, m, p), body, m, behind), m.end, |Before(text, m, p)| + |Lines(body)|);
  }

  lemma BodyEndFound(text: string, m: Markers, p: Place, body: string, behind: string, k: nat)
    requires Distinct(m) && PlaceOf(text, m) == Some(p) && First(body, m.end, k)
    ensures Find(Around(Before(text, m, p), body, m, behind), m.end) == Some(|Before(text, m, p)| + 1 + k)
  {
    PlaceIsFirst(text, m, p);
    BodyEndIsFirst(text, m, p, body, behind, k);
    FirstIsFound(Around(Before(text, m, p), body, m, behind), m.end, |Before(text, m, p)| + 1 + k);
  }

  lemma CleanPlace(text: string, m: Markers, p: Place, body: string)
    requires Distinct(m) && PlaceOf(text, m) == Some(p) && !Occurs(body, m.end)
    ensures PlacedTo(text, m, p, body, |Before(text, m, p)| + |Lines(body)|)
  {
    WrittenEndFound(text, m, p, body, Behind(text, m, p));
    PlaceRewritten(text, m, p, body, |Before(text, m, p)| + |Lines(body)|);
  }

  lemma DirtyPlace(text: string, m: Markers, p: Place, body: string, k: nat)
    requires Distinct(m) && PlaceOf(text, m) == Some(p) && First(body, m.end, k)
    ensures PlacedTo(text, m, p, body, |Before(text, m, p)| + 1 + k)
  {
    BodyEndFound(text, m, p, body, Behind(text, m, p), k);
    PlaceRewritten(text, m, p, body, |Before(text, m, p)| + 1 + k);
  }

  lemma BehindWritten(before: string, body: string, m: Markers, behind: string)
    ensures Around(before, body, m, behind)[|before| + |Lines(body)| + |m.end|..] == behind
  {
  }

  lemma MoreBehind(before: string, m: Markers, body: string, behind: string, more: string)
    requires |behind| < |more|
    ensures Around(before, body, m, behind) != Around(before, body, m, more)
  {
    assert |Around(before, body, m, behind)| < |Around(before, body, m, more)|;
  }

  /**
   What writing a region does: without a begin marker, and an end marker that is not before it,
   the markers are missing; otherwise the lines between the first of each are replaced by the body.
   */
  lemma RewriteWrites(text: string, m: Markers, body: string)
    ensures Rewrite(text, m, body).Some? <==>
            exists b: nat, e: nat :: First(text, m.begin, b) && First(text, m.end, e) && b <= e
    ensures forall b: nat, e: nat :: First(text, m.begin, b) && First(text, m.end, e) && b <= e ==>
              Rewrite(text, m, body) ==
              Some(text[..b] + m.begin + ("\n" + body + "\n") + (m.end + text[e + |m.end|..]))
  {
    if PlaceOf(text, m).Some? {
      PlaceIsFirst(text, m, PlaceOf(text, m).value);
    }
    forall b: nat, e: nat | First(text, m.begin, b) && First(text, m.end, e) && b <= e
      ensures PlaceOf(text, m) == Some(Place(b, e))
    {
      PlaceIs(text, m, Place(b, e));
    }
  }

  lemma PlaceIs(text: string, m: Markers, p: Place)
    requires First(text, m.begin, p.begin) && First(text, m.end, p.end) && p.begin <= p.end
    ensures PlaceOf(text, m) == Some(p)
  {
    PlaceMeans(text, m);
  }

  /** A clean body leaves the text around the region, and the region's place, as they were. */
  lemma CleanRewrite(text: string, m: Markers, body: string)
    requires Distinct(m) && Rewrite(text, m, body).Some? && !Occurs(body, m.end)
    ensures var u, p := Rewrite(text, m, body).value, PlaceOf(text, m).value;
            var q := Place(p.begin, |Before(text, m, p)| + |Lines(body)|);
            && PlaceOf(u, m) == Some(q) && Fits(u, m, q)
            && Before(u, m, q) == Before(text, m, p) && Behind(u, m, q) == Behind(text, m, p)
  {
    var p := PlaceOf(text, m).value;
    CleanPlace(text, m, p, body);
    BehindWritten(Before(text, m, p), body, m, Behind(text, m, p));
  }

  lemma DirtyRewrite(text: string, m: Markers, body: string)
    requires Distinct(m) && Rewrite(text, m, body).Some? && Occurs(body, m.end)
    ensures var u, p := Rewrite(text, m, body).value, PlaceOf(text, m).value;
            && PlaceOf(u, m).Some?
            && Before(u, m, PlaceOf(u, m).value) == Before(text, m, p)
            && |Behind(u, m, PlaceOf(u, m).value)| > |Behind(text, m, p)|
  {
    var p := PlaceOf(text, m).value;
    FindMeans(body, m.end);
    DirtyPlace(text, m, p, body, Find(body, m.end).value);
  }

  /** Rewriting a rewritten text is rewriting the text, exactly when the first body holds no end marker. */
  lemma RewriteTwice(text: string, m: Markers, first: string, second: string)
    requires Distinct(m) && Rewrite(text, m, first).Some?
    ensures Rewrite(Rewrite(text, m, first).value, m, second) == Rewrite(text, m, second) <==> !Occurs(first, m.end)
  {
    var u, p := Rewrite(text, m, first).value, PlaceOf(text, m).value;
    if Occurs(first, m.end) {
      DirtyRewrite(text, m, first);
      MoreBehind(Before(text, m, p), m, second, Behind(text, m, p), Behind(u, m, PlaceOf(u, m).value));
    } else {
      CleanRewrite(text, m, first);
    }
  }

  /** Nowhere on the begin marker can an end marker start, not even one that runs beyond it. */
  lemma MarkersApart(k: nat) returns (j: nat)
    requires k < |BEGIN|
    ensures j < |END| && k + j < |BEGIN| && BEGIN[k + j] != END[j]
  {
    CommentChars();
    BeginChars();
    EndChars();
    var n := |BEGIN|;
    assert END[0] == COMMENT[0] && END[6] == COMMENT[6] && END[7] == COMMENT[7] && END[9] == END_WORDS[1];
    assert BEGIN[8] == BEGIN_FIRST[0] && BEGIN[9] == BEGIN_FIRST[1];
    if k == 0 {
      j := 9;
    } else if k == 1 {
      j := 7;
    } else if k + 6 < n {
      j := 6;
      BehindComment(k + 6);
    } else {
      j := 0;
      assert BEGIN[k] == BEGIN_END[k + 6 - n];
    }
  }

  lemma AliasMarkersDistinct()
    ensures Distinct(ALIAS_MARKERS)
  {
    EndChars();
    forall k: nat | k < |BEGIN| ensures Clash(ALIAS_MARKERS, k) {
      var j := MarkersApart(k);
      assert Differs(ALIAS_MARKERS, k, j);
    }
  }

  /** Writing the region twice writes the second body only, exactly when the first holds no end marker. */
  lemma WriteRegionTwice(text: string, first: string, second: string)
    requires Rewrite(text, ALIAS_MARKERS, first).Some?
    ensures Rewrite(Rewrite(text, ALIAS_MARKERS, first).value, ALIAS_MARKERS, second) ==
              Rewrite(text, ALIAS_MARKERS, second)
            <==> !Occurs(first, END)
  {
    AliasMarkersDistinct();
    RewriteTwice(text, ALIAS_MARKERS, first, second);
  }

  // ---------------------------------------------------------------- the aliases

  datatype PackageAlias = PackageAlias(specifier: string, source: string)

  function Quoted(s: string, escape: string -> string): string {
    ['"'] + escape(s) + ['"']
  }

  function AliasLine(a: PackageAlias, escape: string -> string): string {
    "      " + Quoted(a.specifier, escape) + ": [" + Quoted(a.source, escape) + "]"
  }

  /** The aliases that no hand-written key maps. */
  function Emitted(aliases: seq<PackageAlias>, handWritten: set<string>): seq<PackageAlias> {
    if aliases == [] then []
    else
      var last := aliases[|aliases| - 1];
      Emitted(aliases[..|aliases| - 1], handWritten) + if last.specifier in handWritten then [] else [last]
  }

  function AliasLines(aliases: seq<PackageAlias>, escape: string -> string): seq<string> {
    seq(|aliases|, i requires 0 <= i < |aliases| => AliasLine(aliases[i], escape))
  }

  function JoinMembers(lines: seq<string>): string {
    if lines == [] then ""
    else if |lines| == 1 then lines[0]
    else lines[0] + [','] + (['\n'] + JoinMembers(lines[1..]))
  }

  function Rendered(aliases: seq<PackageAlias>, handWritten: set<string>, escape: string -> string): string {
    JoinMembers(AliasLines(Emitted(aliases, handWritten), escape))
  }

  method RenderAliases(aliases: seq<PackageAlias>, handWritten: set<string>, escape: string -> string)
    returns (body: string)
    ensures body == Rendered(aliases, handWritten, escape)
  {
    var lines := [];
    for k := 0 to |aliases|
      invariant lines == AliasLines(Emitted(aliases[..k], handWritten), escape)
    {
      assert aliases[..k + 1][..k] == aliases[..k];
      if aliases[k].specifier !in handWritten {
        lines := lines + [AliasLine(aliases[k], escape)];
      }
    }
    assert aliases[..|aliases|] == aliases;
    body := JoinMembers(lines);
  }

  /** Every alias is mapped by hand or emitted, and no emitted one is mapped by hand. */
  lemma {:induction false} EmittedOrByHand(aliases: seq<PackageAlias>, handWritten: set<string>)
    ensures forall a :: a in Emitted(aliases, handWritten) <==> a in aliases && a.specifier !in handWritten
  {
    if aliases != [] {
      var n := |aliases| - 1;
      EmittedOrByHand(aliases[..n], handWritten);
      assert aliases == aliases[..n] + [aliases[n]];
    }
  }

  /** Aliases are emitted in their order. */
  lemma {:induction false} EmittedInOrder(xs: seq<PackageAlias>, a: PackageAlias, ys: seq<PackageAlias>,
                                          handWritten: set<string>)
    ensures Emitted(xs + [a] + ys, handWritten) ==
            Emitted(xs, handWritten) + (if a.specifier in handWritten then [] else [a]) + Emitted(ys, handWritten)
  {
    var all := xs + [a] + ys;
    if ys == [] {
      assert all == xs + [a] && all[..|xs|] == xs;
    } else {
      var n := |ys| - 1;
      assert all[..|all| - 1] == xs + [a] + ys[..n];
      EmittedInOrder(xs, a, ys[..n], handWritten);
    }
  }

  /** The members as lines: each one but the last has a comma behind it. */
  lemma {:induction false} MembersAreLines(lines: seq<string>)
    requires lines != [] && forall i :: 0 <= i < |lines| ==> '\n' !in lines[i]
    ensures var split := Split(JoinMembers(lines), '\n');
            |split| == |lines| &&
            forall i :: 0 <= i < |lines| ==> split[i] == lines[i] + if i + 1 < |lines| then "," else ""
  {
    if |lines| == 1 {
      SplitWhole(lines[0], '\n');
    } else {
      var first, rest := lines[0] + [','], JoinMembers(lines[1..]);
      MembersAreLines(lines[1..]);
      assert JoinMembers(lines) == first + ['\n'] + rest;
      SplitWhole(first, '\n');
      SplitAtSeparator(first, '\n', rest);
    }
  }

  /**
   The rendered text, line by line: the emitted aliases in order, each as a JSON member from its
   specifier to an array with its source, and all but the last followed by a comma.
   */
  lemma RenderedLines(aliases: seq<PackageAlias>, handWritten: set<string>, escape: string -> string)
    requires OneLine(escape) && Emitted(aliases, handWritten) != []
    ensures var emitted, lines :=
              Emitted(aliases, handWritten), Split(Rendered(aliases, handWritten, escape), '\n');
            && |lines| == |emitted|
            && forall i :: 0 <= i < |emitted| ==>
                 lines[i] ==
                 "      " + ("\"" + escape(emitted[i].specifier) + "\"") +
                 ": [" + ("\"" + escape(emitted[i].source) + "\"") + "]" +
                 if i + 1 < |emitted| then "," else ""
  {
    AliasLinesShape(Emitted(aliases, handWritten), escape);
    MembersAreLines(AliasLines(Emitted(aliases, handWritten), escape));
  }

  lemma TooShort(x: string, p: string)
    requires |x| < |p|
    ensures !Occurs(x, p)
  {
  }

  lemma EndInQuoted(s: string, escape: string -> string, before: string, behind: string)
    ensures Occurs(before + Quoted(s, escape) + behind, END) <==>
              Occurs(before, END) || Occurs(escape(s), END) || Occurs(behind, END)
  {
    EndChars();
    var rest := escape(s) + ['"'] + behind;
    assert before + Quoted(s, escape) + behind == before + ['"'] + rest;
    OccursBeside(before, '"', rest, END);
    OccursBeside(escape(s), '"', behind, END);
  }

  /** A line holds an end marker only inside one of its two names. */
  lemma EndInLine(a: PackageAlias, escape: string -> string)
    ensures Occurs(AliasLine(a, escape), END) <==> Occurs(escape(a.specifier), END) || Occurs(escape(a.source), END)
  {
    CommentChars();
    assert |END| > 8;
    var rest := ": [" + Quoted(a.source, escape) + "]";
    assert AliasLine(a, escape) == "      " + Quoted(a.specifier, escape) + rest;
    TooShort("      ", END);
    TooShort(": [", END);
    TooShort("]", END);
    EndInQuoted(a.specifier, escape, "      ", rest);
    EndInQuoted(a.source, escape, ": [", "]");
  }

  lemma {:induction false} EndInMembers(lines: seq<string>)
    ensures Occurs(JoinMembers(lines), END) <==> exists i :: 0 <= i < |lines| && Occurs(lines[i], END)
  {
    EndChars();
    if lines == [] {
      TooShort("", END);
    } else if |lines| > 1 {
      var rest := JoinMembers(lines[1..]);
      EndInMembers(lines[1..]);
      OccursBeside(lines[0], ',', ['\n'] + rest, END);
      assert ['\n'] + rest == "" + ['\n'] + rest;
      OccursBeside("", '\n', rest, END);
      TooShort("", END);
      assert forall i :: 0 < i < |lines| ==> lines[i] == lines[1..][i - 1];
      if i :| 0 <= i < |lines[1..]| && Occurs(lines[1..][i], END) {
        assert Occurs(lines[i + 1], END);
      }
    }
  }

  /** Some name of the alias, as it is quoted, holds an end marker. */
  ghost predicate Disturbs(a: PackageAlias, escape: string -> string) {
    Occurs(escape(a.specifier), END) || Occurs(escape(a.source), END)
  }

  /** The rendered lines hold an end marker only when an emitted name does. */
  lemma EndInRendered(aliases: seq<PackageAlias>, handWritten: set<string>, escape: string -> string)
    ensures Occurs(Rendered(aliases, handWritten, escape), END) <==>
              exists a :: a in aliases && a.specifier !in handWritten && Disturbs(a, escape)
  {
    var emitted := Emitted(aliases, handWritten);
    var lines := AliasLines(emitted, escape);
    EmittedOrByHand(aliases, handWritten);
    EndInMembers(lines);
    forall i | 0 <= i < |lines| ensures Occurs(lines[i], END) <==> Disturbs(emitted[i], escape) {
      EndInLine(emitted[i], escape);
    }
    if a :| a in aliases && a.specifier !in handWritten && Disturbs(a, escape) {
      assert a in emitted;
      var i :| 0 <= i < |emitted| && emitted[i] == a;
      assert Occurs(lines[i], END);
    }
    if i :| 0 <= i < |lines| && Occurs(lines[i], END) {
      assert emitted[i] in emitted;
    }
  }

  // ---------------------------------------------------------------- generating again

  /** What stands outside the region; all of the text when there is none. */
  function OutsideOf(text: string, m: Markers): string {
    match PlaceOf(text, m)
    case None => text
    case Some(p) => text[..p.begin] + text[p.end..]
  }

  function Outside(text: string): string {
    OutsideOf(text, ALIAS_MARKERS)
  }

  /**
   The text with the region generated from the aliases that its hand-written keys leave; `keys`
   reads a text's keys.
   */
  function Generated(
    text: string, aliases: seq<PackageAlias>, escape: string -> string, keys: string -> set<string>): Option<string> {
    Rewrite(text, ALIAS_MARKERS, Rendered(aliases, keys(Outside(text)), escape))
  }

  /** The text outside the region is the text before its begin marker, and its end marker with what is behind. */
  lemma OutsideParts(text: string, m: Markers, p: Place)
    requires PlaceOf(text, m) == Some(p)
    ensures OutsideOf(text, m) == Before(text, m, p)[..|Before(text, m, p)| - |m.begin|] + (m.end + Behind(text, m, p))
  {
    PlaceIsFirst(text, m, p);
    SplitTail(text, p.end, p.end + |m.end|);
    assert Before(text, m, p)[..p.begin] == text[..p.begin];
  }

  lemma SplitTail(text: string, i: nat, j: nat)
    requires i <= j <= |text|
    ensures text[i..] == text[i..j] + text[j..]
  {
  }

  lemma CleanStaysOutside(text: string, m: Markers, body: string)
    requires Distinct(m) && Rewrite(text, m, body).Some? && !Occurs(body, m.end)
    ensures OutsideOf(Rewrite(text, m, body).value, m) == OutsideOf(text, m)
  {
    CleanRewrite(text, m, body);
    var u := Rewrite(text, m, body).value;
    OutsideParts(text, m, PlaceOf(text, m).value);
    OutsideParts(u, m, PlaceOf(u, m).value);
  }

  /** A clean body leaves what is outside the region as it was. */
  lemma OutsideStays(text: string, body: string)
    requires Rewrite(text, ALIAS_MARKERS, body).Some? && !Occurs(body, END)
    ensures Outside(Rewrite(text, ALIAS_MARKERS, body).value) == Outside(text)
  {
    AliasMarkersDistinct();
    CleanStaysOutside(text, ALIAS_MARKERS, body);
  }

  /** Generating from generated text gives the same text, when no emitted name holds an end marker. */
  lemma GeneratingIsFixed(
    text: string, aliases: seq<PackageAlias>, escape: string -> string, keys: string -> set<string>)
    requires Generated(text, aliases, escape, keys).Some?
    requires forall a :: a in aliases && a.specifier !in keys(Outside(text)) ==> !Disturbs(a, escape)
    ensures var u := Generated(text, aliases, escape, keys).value;
            Outside(u) == Outside(text) && Generated(u, aliases, escape, keys) == Some(u)
  {
    var body := Rendered(aliases, keys(Outside(text)), escape);
    EndInRendered(aliases, keys(Outside(text)), escape);
    OutsideStays(text, body);
    WriteRegionTwice(text, body, body);
  }

  /** A quoted name holds no line break, as in JSON. */
  ghost predicate OneLine(escape: string -> string) {
    forall s :: '\n' !in escape(s)
  }

  /** Every line starts like an alias line and holds no line break. */
  predicate LinesOfAliases(lines: seq<string>) {
    forall i :: 0 <= i < |lines| ==> '\n' !in lines[i] && |lines[i]| > 6 && lines[i][6] == '"'
  }

  lemma AliasLinesShape(aliases: seq<PackageAlias>, escape: string -> string)
    requires OneLine(escape)
    ensures LinesOfAliases(AliasLines(aliases, escape))
  {
    var lines := AliasLines(aliases, escape);
    forall i | 0 <= i < |lines| ensures '\n' !in lines[i] && |lines[i]| > 6 && lines[i][6] == '"' {
      var a := aliases[i];
      assert '\n' !in escape(a.specifier) && '\n' !in escape(a.source);
      assert '\n' !in "      " && '\n' !in ": [" && '\n' !in "]";
    }
  }

  lemma MembersStart(lines: seq<string>)
    requires lines != [] && LinesOfAliases(lines)
    ensures |JoinMembers(lines)| > 6 && JoinMembers(lines)[6] == '"'
  {
  }

  /** No end marker starts a line of the rendered aliases. */
  lemma {:induction false} EndInsideLine(lines: seq<string>, k: nat)
    requires LinesOfAliases(lines) && At(JoinMembers(lines), END, k)
    ensures k > 0 && JoinMembers(lines)[k - 1] != '\n'
    decreases |lines|, 1
  {
    EndChars();
    CommentChars();
    assert END[6] == '/' && |END| > 6;
    if lines != [] {
      MembersStart(lines);
      AtPoint(JoinMembers(lines), END, k, 6);
      if |lines| > 1 {
        EndBehindLine(lines, k);
      } else {
        assert JoinMembers(lines)[k - 1] in lines[0];
      }
    }
  }

  lemma {:induction false} EndBehindLine(lines: seq<string>, k: nat)
    requires LinesOfAliases(lines) && |lines| > 1 && k > 0 && At(JoinMembers(lines), END, k)
    ensures JoinMembers(lines)[k - 1] != '\n'
    decreases |lines|, 0
  {
    EndChars();
    var line, rest := lines[0], JoinMembers(lines[1..]);
    var all := line + [','] + (['\n'] + rest);
    assert JoinMembers(lines) == all;
    if k <= |line| {
      assert all[k - 1] == line[k - 1];
      assert line[k - 1] in line;
    } else {
      AtBehind(line + [','], ['\n'] + rest, END, k - |line| - 1);
      assert ['\n'] + rest == "" + ['\n'] + rest;
      if k == |line| + 1 {
        NotAcross("", '\n', rest, END, 0);
      } else {
        AtBehind(['\n'], rest, END, k - |line| - 2);
        EndInsideLine(lines[1..], k - |line| - 2);
        assert all[k - 1] == rest[k - |line| - 3];
      }
    }
  }

  /** With an end marker inside a line of its body, a text is no rewrite of itself. */
  lemma NotReproduced(before: string, body: string, m: Markers, behind: string, k: nat, other: string)
    requires 0 < k && k + |m.end| <= |body| && body[k - 1] != '\n'
    ensures var u := Around(before, body, m, behind);
            Around(before, other, m, u[|before| + 1 + k + |m.end|..]) != u
  {
    var u, more := Around(before, body, m, behind), Around(before, body, m, behind)[|before| + 1 + k + |m.end|..];
    var v := Around(before, other, m, more);
    assert u[|before| + k] == body[k - 1];
    assert |v| == |before| + |other| + 2 + |m.end| + |more|;
    assert v[|before| + 1 + |other|] == '\n';
  }

  lemma WrittenIsNotFixed(
    u: string, m: Markers, q: Place, before: string, body: string, behind: string, k: nat, other: string)
    requires PlaceOf(u, m) == Some(q) && Before(u, m, q) == before
    requires u == Around(before, body, m, behind) && q.end == |before| + 1 + k
    requires 0 < k && k + |m.end| <= |body| && body[k - 1] != '\n'
    ensures Rewrite(u, m, other) != Some(u)
  {
    NotReproduced(before, body, m, behind, k, other);
  }

  lemma DisturbedIsNotFixed(text: string, m: Markers, body: string, k: nat, other: string)
    requires Distinct(m) && Rewrite(text, m, body).Some?
    requires First(body, m.end, k) && k > 0 && body[k - 1] != '\n'
    ensures var u := Rewrite(text, m, body).value;
            Rewrite(u, m, other) != Some(u)
  {
    var p := PlaceOf(text, m).value;
    DirtyPlace(text, m, p, body, k);
    WrittenIsNotFixed(Rewrite(text, m, body).value, m, Place(p.begin, |Before(text, m, p)| + 1 + k),
                      Before(text, m, p), body, Behind(text, m, p), k, other);
  }

  /** The generator reproduces its own output if and only if no emitted name holds an end marker. */
  lemma GeneratingIsFixedIff(
    text: string, aliases: seq<PackageAlias>, escape: string -> string, keys: string -> set<string>)
    requires OneLine(escape) && Generated(text, aliases, escape, keys).Some?
    ensures Generated(Generated(text, aliases, escape, keys).value, aliases, escape, keys) ==
              Generated(text, aliases, escape, keys)
            <==> forall a :: a in aliases && a.specifier !in keys(Outside(text)) ==> !Disturbs(a, escape)
  {
    var handWritten := keys(Outside(text));
    var body := Rendered(aliases, handWritten, escape);
    EndInRendered(aliases, handWritten, escape);
    if Occurs(body, END) {
      var lines := AliasLines(Emitted(aliases, handWritten), escape);
      FindMeans(body, END);
      var k := Find(body, END).value;
      AliasLinesShape(Emitted(aliases, handWritten), escape);
      EndInsideLine(lines, k);
      var u := Generated(text, aliases, escape, keys).value;
      AliasMarkersDistinct();
      DisturbedIsNotFixed(text, ALIAS_MARKERS, body, k, Rendered(aliases, keys(Outside(u)), escape));
    } else {
      GeneratingIsFixed(text, aliases, escape, keys);
    }
  }

  /** A text with an empty region. */
  lemma EmptyRegionFound()
    ensures PlaceOf(BEGIN + "\n" + END, ALIAS_MARKERS).Some?
  {
    var text := BEGIN + "\n" + END;
    assert text[0..|BEGIN|] == BEGIN && text[|BEGIN| + 1..|BEGIN| + 1 + |END|] == END;
    FirstIsFound(text, BEGIN, 0);
    assert At(text, END, |BEGIN| + 1);
    FindMeans(text, END);
  }

  const OVERLAY_PREFIX := "@durash/dsh-"

  /**
   A package whose manifest declares a name that ends in the end marker: generating again changes
   what was generated.
   */
  lemma EndMarkerNameMoves(source: string, escape: string -> string, keys: string -> set<string>)
    requires OneLine(escape) && escape(OVERLAY_PREFIX + END) == OVERLAY_PREFIX + END
    requires forall text :: OVERLAY_PREFIX + END !in keys(text)
    ensures var text, aliases := BEGIN + "\n" + END, [PackageAlias(OVERLAY_PREFIX + END, source)];
            && Generated(text, aliases, escape, keys).Some?
            && Generated(Generated(text, aliases, escape, keys).value, aliases, escape, keys) !=
               Generated(text, aliases, escape, keys)
  {
    var text, a := BEGIN + "\n" + END, PackageAlias(OVERLAY_PREFIX + END, source);
    EmptyRegionFound();
    GeneratingIsFixedIff(text, [a], escape, keys);
    EndsInMarker(OVERLAY_PREFIX, END);
    assert Disturbs(a, escape) && a in [a] && a.specifier !in keys(Outside(text));
  }

  lemma EndsInMarker(front: string, p: string)
    ensures Occurs(front + p, p)
  {
    assert (front + p)[|front|..|front| + |p|] == p;
    assert At(front + p, p, |front|);
  }
}
