/**
 Removing the bodies of methods and functions from a declaration's text, by the positions that
 a parse of the file gives.
 */
module BodyStripping {
  import opened Outcomes
  import opened Sorting
  import opened Text

  datatype Span = Span(start: nat, end: nat)

  /** Methods, constructors, functions and accessors are function-like; their ends are positions in the file. */
  datatype Kind =
    | FunctionLike(typeEnd: Option<nat>, parameterEnds: seq<nat>, body: Option<Span>)
    | OtherKind

  datatype Node = Node(start: nat, end: nat, kind: Kind, children: seq<Node>)

  predicate HasBody(node: Node) {
    node.kind.FunctionLike? && node.kind.body.Some?
  }

  /** Where the signature ends: behind the return type, else the last parameter, else the whole node. */
  function SignatureEnd(node: Node): nat
    requires node.kind.FunctionLike?
  {
    if node.kind.typeEnd.Some? then node.kind.typeEnd.value
    else if node.kind.parameterEnds != [] then node.kind.parameterEnds[|node.kind.parameterEnds| - 1]
    else node.end
  }

  /** Neither a type nor a parameter. */
  predicate Bare(entry: Node)
    requires HasBody(entry)
  {
    entry.kind.typeEnd.None? && entry.kind.parameterEnds == []
  }

  function CutOf(node: Node): Span
    requires HasBody(node)
  {
    Span(SignatureEnd(node), node.kind.body.value.end)
  }

  // ---------------------------------------------------------------- parsed trees

  /** A body ends its node, behind the signature. */
  predicate Bodied(node: Node) {
    && HasBody(node)
    && node.start < SignatureEnd(node) <= node.end
    && node.start <= node.kind.body.value.start <= node.kind.body.value.end == node.end
    && (!Bare(node) ==> SignatureEnd(node) <= node.kind.body.value.start)
  }

  /** Children lie inside the node and apart from each other. */
  predicate Parsed(node: Node)
    decreases node
  {
    && node.start <= node.end
    && (HasBody(node) ==> Bodied(node))
    && (forall i :: 0 <= i < |node.children| ==> Parsed(node.children[i]))
    && (forall i :: 0 <= i < |node.children| ==>
         node.start <= node.children[i].start && node.children[i].end <= node.end)
    && (forall i, j :: 0 <= i < j < |node.children| ==> node.children[i].end <= node.children[j].start)
  }

  // ---------------------------------------------------------------- collecting the cuts

  /** The cuts of a tree in the order of the visit, which stops at each body. */
  function CutsOf(node: Node): seq<Span>
    decreases node, 1, 0
  {
    if HasBody(node) then [CutOf(node)] else CutsBelow(node, |node.children|)
  }

  /** The cuts of the first `n` children. */
  function CutsBelow(node: Node, n: nat): seq<Span>
    requires n <= |node.children|
    decreases node, 0, n
  {
    if n == 0 then [] else CutsBelow(node, n - 1) + CutsOf(node.children[n - 1])
  }

  /** The entry has a body and no node around it, up to `node`, does. */
  predicate Outermost(node: Node, entry: Node)
    decreases node
  {
    if HasBody(node) then entry == node
    else exists i :: 0 <= i < |node.children| && Outermost(node.children[i], entry)
  }

  lemma {:induction false} CutsBelowHold(node: Node, n: nat, i: nat, c: Span)
    requires i < n <= |node.children| && c in CutsOf(node.children[i])
    ensures c in CutsBelow(node, n)
  {
    if i < n - 1 {
      CutsBelowHold(node, n - 1, i, c);
    }
  }

  lemma {:induction false} CutBelow(node: Node, n: nat, c: Span) returns (i: nat)
    requires n <= |node.children| && c in CutsBelow(node, n)
    ensures i < n && c in CutsOf(node.children[i])
  {
    i := n - 1;
    if c in CutsBelow(node, n - 1) {
      i := CutBelow(node, n - 1, c);
    }
  }

  lemma {:induction false} OutermostIsCut(node: Node, entry: Node)
    requires Outermost(node, entry)
    ensures HasBody(entry) && CutOf(entry) in CutsOf(node)
    decreases node
  {
    if !HasBody(node) {
      var i :| 0 <= i < |node.children| && Outermost(node.children[i], entry);
      OutermostIsCut(node.children[i], entry);
      CutsBelowHold(node, |node.children|, i, CutOf(entry));
    }
  }

  lemma {:induction false} CutIsOutermost(node: Node, c: Span) returns (entry: Node)
    requires c in CutsOf(node)
    ensures Outermost(node, entry) && HasBody(entry) && c == CutOf(entry)
    decreases node
  {
    if HasBody(node) {
      entry := node;
    } else {
      var i := CutBelow(node, |node.children|, c);
      entry := CutIsOutermost(node.children[i], c);
    }
  }

  /** There is a cut for every outermost function-like node with a body, and no other. */
  lemma CutsAreOutermostBodies(node: Node)
    ensures forall c :: c in CutsOf(node) <==>
              exists entry :: Outermost(node, entry) && HasBody(entry) && c == CutOf(entry)
  {
    forall c ensures c in CutsOf(node) <==>
        exists entry :: Outermost(node, entry) && HasBody(entry) && c == CutOf(entry) {
      if c in CutsOf(node) {
        var entry := CutIsOutermost(node, c);
      }
      if entry :| Outermost(node, entry) && HasBody(entry) && c == CutOf(entry) {
        OutermostIsCut(node, entry);
      }
    }
  }

  /** Cuts from left to right inside a span, no two of them overlapping or starting at the same place. */
  predicate Apart(cuts: seq<Span>, from: nat, to: nat) {
    && (forall i :: 0 <= i < |cuts| ==> from < cuts[i].start <= cuts[i].end <= to)
    && (forall i, j :: 0 <= i < j < |cuts| ==> cuts[i].end < cuts[j].start)
  }

  lemma ApartJoins(xs: seq<Span>, ys: seq<Span>, from: nat, middle: nat, next: nat, to: nat)
    requires Apart(xs, from, middle) && Apart(ys, next, to) && from <= middle <= next <= to
    ensures Apart(xs + ys, from, to)
  {
  }

  lemma ApartWider(cuts: seq<Span>, from: nat, to: nat, left: nat, right: nat)
    requires Apart(cuts, from, to) && left <= from && to <= right
    ensures Apart(cuts, left, right)
  {
  }

  /** Because the visit stops at each body, no two cuts overlap. */
  lemma {:induction false} CutsApart(node: Node)
    requires Parsed(node)
    ensures Apart(CutsOf(node), node.start, node.end)
    decreases node, 1, 0
  {
    if !HasBody(node) {
      CutsBelowApart(node, |node.children|);
      if |node.children| > 0 {
        ApartWider(CutsOf(node), node.start, node.children[|node.children| - 1].end, node.start, node.end);
      }
    }
  }

  lemma {:induction false} CutsBelowApart(node: Node, n: nat)
    requires Parsed(node) && n <= |node.children|
    ensures Apart(CutsBelow(node, n), node.start, if n == 0 then node.start else node.children[n - 1].end)
    decreases node, 0, n
  {
    if n > 0 {
      var last := node.children[n - 1];
      CutsBelowApart(node, n - 1);
      CutsApart(last);
      var middle := if n == 1 then node.start else node.children[n - 2].end;
      ApartJoins(CutsBelow(node, n - 1), CutsOf(last), node.start, middle, last.start, last.end);
    }
  }

  // ---------------------------------------------------------------- the nodes that are cut

  /** The outermost nodes with a body, in the order of the visit. */
  function EntriesOf(node: Node): (entries: seq<Node>)
    ensures forall i :: 0 <= i < |entries| ==> HasBody(entries[i])
    decreases node, 1, 0
  {
    if HasBody(node) then [node] else EntriesBelow(node, |node.children|)
  }

  function EntriesBelow(node: Node, n: nat): (entries: seq<Node>)
    requires n <= |node.children|
    ensures forall i :: 0 <= i < |entries| ==> HasBody(entries[i])
    decreases node, 0, n
  {
    if n == 0 then [] else EntriesBelow(node, n - 1) + EntriesOf(node.children[n - 1])
  }

  function CutsFor(entries: seq<Node>): seq<Span>
    requires forall i :: 0 <= i < |entries| ==> HasBody(entries[i])
  {
    seq(|entries|, i requires 0 <= i < |entries| => CutOf(entries[i]))
  }

  lemma {:induction false} CutsForEntries(node: Node)
    ensures CutsOf(node) == CutsFor(EntriesOf(node))
    decreases node, 1, 0
  {
    if !HasBody(node) {
      CutsForBelow(node, |node.children|);
    }
  }

  lemma {:induction false} CutsForBelow(node: Node, n: nat)
    requires n <= |node.children|
    ensures CutsBelow(node, n) == CutsFor(EntriesBelow(node, n))
    decreases node, 0, n
  {
    if n > 0 {
      CutsForBelow(node, n - 1);
      CutsForEntries(node.children[n - 1]);
    }
  }

  lemma {:induction false} EntryIsOutermost(node: Node, entry: Node)
    ensures entry in EntriesOf(node) <==> Outermost(node, entry)
    decreases node, 1, 0
  {
    if !HasBody(node) {
      EntryBelow(node, |node.children|, entry);
    }
  }

  lemma {:induction false} EntryBelow(node: Node, n: nat, entry: Node)
    requires n <= |node.children|
    ensures entry in EntriesBelow(node, n) <==> exists i :: 0 <= i < n && Outermost(node.children[i], entry)
    decreases node, 0, n
  {
    if n > 0 {
      EntryBelow(node, n - 1, entry);
      EntryIsOutermost(node.children[n - 1], entry);
    }
  }

  /** Parsed nodes with bodies, from left to right between two positions. */
  predicate InLine(entries: seq<Node>, from: nat, to: nat) {
    && (forall i :: 0 <= i < |entries| ==>
          Bodied(entries[i]) && from <= entries[i].start && entries[i].end <= to)
    && (forall i, j :: 0 <= i < j < |entries| ==> entries[i].end <= entries[j].start)
  }

  lemma InLineJoins(xs: seq<Node>, ys: seq<Node>, from: nat, middle: nat, next: nat, to: nat)
    requires InLine(xs, from, middle) && InLine(ys, next, to) && from <= middle <= next <= to
    ensures InLine(xs + ys, from, to)
  {
  }

  lemma {:induction false} EntriesInLine(node: Node)
    requires Parsed(node)
    ensures InLine(EntriesOf(node), node.start, node.end)
    decreases node, 1, 0
  {
    if !HasBody(node) {
      EntriesBelowInLine(node, |node.children|);
    }
  }

  lemma {:induction false} EntriesBelowInLine(node: Node, n: nat)
    requires Parsed(node) && n <= |node.children|
    ensures InLine(EntriesBelow(node, n), node.start, if n == 0 then node.start else node.children[n - 1].end)
    decreases node, 0, n
  {
    if n > 0 {
      var last := node.children[n - 1];
      EntriesBelowInLine(node, n - 1);
      EntriesInLine(last);
      var middle := if n == 1 then node.start else node.children[n - 2].end;
      InLineJoins(EntriesBelow(node, n - 1), EntriesOf(last), node.start, middle, last.start, last.end);
    }
  }

  // ---------------------------------------------------------------- one cut

  /** `trimEnd()`, for what counts as white space. */
  function TrimEnd(s: string, white: char -> bool): (t: string)
    ensures t <= s
  {
    if s != [] && white(s[|s| - 1]) then TrimEnd(s[..|s| - 1], white) else s
  }

  /** What a cut leaves of its text: everything before the first brace, or all but the last character. */
  function Kept(between: string, white: char -> bool): (kept: string)
    ensures |kept| <= |between|
  {
    match Find(between, "{")
    case Some(k) => TrimEnd(between[..k], white)
    case None => TrimEnd(if between == [] then [] else between[..|between| - 1], white)
  }

  /** A cut changes nothing exactly when it is empty. */
  lemma KeptIffEmpty(between: string, white: char -> bool)
    ensures Kept(between, white) == between <==> between == []
  {
    if between != [] {
      var k := if Find(between, "{").Some? then Find(between, "{").value else |between| - 1;
      assert |TrimEnd(between[..k], white)| <= k;
    }
  }

  // ---------------------------------------------------------------- all cuts at once

  /** The text from `from` to `to` with every cut replaced by what it leaves, from left to right. */
  function Replaced(text: string, from: nat, cuts: seq<Span>, to: nat, white: char -> bool): string
    requires from <= to <= |text| && InOrder(cuts, from, to)
    decreases |cuts|
  {
    if cuts == [] then text[from..to]
    else
      text[from..cuts[0].start] + Kept(text[cuts[0].start..cuts[0].end], white)
      + Replaced(text, cuts[0].end, cuts[1..], to, white)
  }

  /** The cuts lie in order between two positions. */
  predicate InOrder(cuts: seq<Span>, from: nat, to: nat) {
    && (forall i :: 0 <= i < |cuts| ==> from <= cuts[i].start <= cuts[i].end <= to)
    && (forall i, j :: 0 <= i < j < |cuts| ==> cuts[i].end <= cuts[j].start)
  }

  lemma SliceJoins(text: string, a: nat, b: nat, c: nat)
    requires a <= b <= c <= |text|
    ensures text[a..b] + text[b..c] == text[a..c]
  {
  }

  lemma Regroup(x: string, y: string, z: string, w: string)
    ensures (x + y) + z + w == x + (y + z + w)
  {
  }

  /** Up to the first cut the text is as it was, and the rest is the replacement from there. */
  lemma ReplacedFrom(text: string, from: nat, cuts: seq<Span>, to: nat, white: char -> bool, p: nat)
    requires from <= p <= to <= |text| && InOrder(cuts, p, to)
    ensures Replaced(text, from, cuts, to, white) == text[from..p] + Replaced(text, p, cuts, to, white)
  {
    if cuts == [] {
      SliceJoins(text, from, p, to);
    } else {
      var kept := Kept(text[cuts[0].start..cuts[0].end], white);
      SliceJoins(text, from, p, cuts[0].start);
      Regroup(text[from..p], text[p..cuts[0].start], kept, Replaced(text, cuts[0].end, cuts[1..], to, white));
    }
  }

  lemma PrefixSlices(output: string, text: string, base: nat, a: nat, b: nat, last: string)
    requires base <= a <= b <= |text| && output == text[base..b] + last
    ensures output[..a - base] == text[base..a] && output[a - base..b - base] == text[a..b] &&
              output[b - base..] == last
  {
  }

  /** `output` with one cut made, its positions counted from `base`. */
  function Cut(output: string, base: nat, cut: Span, white: char -> bool): string
    requires base <= cut.start <= cut.end <= base + |output|
  {
    output[..cut.start - base] + Kept(output[cut.start - base..cut.end - base], white) + output[cut.end - base..]
  }

  lemma CutBehind(output: string, text: string, base: nat, c: Span, white: char -> bool, last: string)
    requires base <= c.start <= c.end <= |text| && output == text[base..c.end] + last
    ensures c.end <= base + |output|
    ensures Cut(output, base, c, white) == text[base..c.start] + Kept(text[c.start..c.end], white) + last
  {
    PrefixSlices(output, text, base, c.start, c.end, last);
  }

  /** Cutting what is left of the cuts that are already replaced replaces one more. */
  lemma OneMoreReplaced(text: string, base: nat, cuts: seq<Span>, to: nat, white: char -> bool)
    requires base <= to <= |text| && cuts != [] && InOrder(cuts, base, to)
    ensures var output := Replaced(text, base, cuts[1..], to, white);
            cuts[0].end <= base + |output| && Cut(output, base, cuts[0], white) == Replaced(text, base, cuts, to, white)
  {
    var c, rest := cuts[0], cuts[1..];
    ReplacedFrom(text, base, rest, to, white, c.end);
    CutBehind(Replaced(text, base, rest, to, white), text, base, c, white, Replaced(text, c.end, rest, to, white));
  }

  lemma OnlyCut(text: string, base: nat, c: Span, to: nat, white: char -> bool)
    requires base <= to <= |text| && base <= c.start <= c.end <= to
    ensures Replaced(text, base, [c], to, white) ==
            text[base..c.start] + Kept(text[c.start..c.end], white) + text[c.end..to]
  {
    assert [c][1..] == [];
  }

  // ---------------------------------------------------------------- the descending order

  /** The comparison that sorts cuts by descending start. */
  predicate LaterFirst(a: Span, b: Span) {
    b.start <= a.start
  }

  function Reversed(cuts: seq<Span>): (r: seq<Span>)
    ensures |r| == |cuts|
    ensures forall i :: 0 <= i < |r| ==> r[i] == cuts[|cuts| - 1 - i]
  {
    if cuts == [] then [] else [cuts[|cuts| - 1]] + Reversed(cuts[..|cuts| - 1])
  }

  lemma {:induction false} LatestGoesFirst(cuts: seq<Span>, c: Span)
    requires forall i :: 0 <= i < |cuts| ==> cuts[i].start < c.start
    ensures Insert(cuts, c, LaterFirst) == [c] + cuts
  {
    if cuts != [] {
      LatestGoesFirst(cuts[..|cuts| - 1], c);
      assert cuts == cuts[..|cuts| - 1] + [cuts[|cuts| - 1]];
    }
  }

  lemma {:induction false} SortingReverses(cuts: seq<Span>, from: nat, to: nat)
    requires Apart(cuts, from, to)
    ensures StableSort(cuts, LaterFirst) == Reversed(cuts)
  {
    if cuts != [] {
      var n := |cuts| - 1;
      SortingReverses(cuts[..n], from, to);
      LatestGoesFirst(Reversed(cuts[..n]), cuts[n]);
    }
  }

  // ---------------------------------------------------------------- stripping

  class Cutter {
    var cuts: seq<Span>

    constructor ()
      ensures cuts == []
    {
      cuts := [];
    }

    method Visit(entry: Node)
      modifies this
      ensures cuts == old(cuts) + CutsOf(entry)
      decreases entry
    {
      if HasBody(entry) {
        cuts := cuts + [CutOf(entry)];
        return;
      }
      for n := 0 to |entry.children|
        invariant cuts == old(cuts) + CutsBelow(entry, n)
      {
        Visit(entry.children[n]);
      }
    }
  }

  /** The text after the last `k` cuts. */
  function AfterCuts(text: string, base: nat, cuts: seq<Span>, k: nat, to: nat, white: char -> bool): string
    requires base <= to <= |text| && Apart(cuts, base, to) && k <= |cuts|
  {
    Replaced(text, base, cuts[|cuts| - k..], to, white)
  }

  /** One round of the cutting loop, for the cut before those already made. */
  lemma CutNext(text: string, base: nat, cuts: seq<Span>, k: nat, to: nat, white: char -> bool)
    requires base <= to <= |text| && Apart(cuts, base, to) && k < |cuts|
    ensures var cut, output := cuts[|cuts| - 1 - k], AfterCuts(text, base, cuts, k, to, white);
            && base <= cut.start <= cut.end <= base + |output|
            && Cut(output, base, cut, white) == AfterCuts(text, base, cuts, k + 1, to, white)
  {
    var n := |cuts| - k;
    assert cuts[n - 1..][1..] == cuts[n..];
    OneMoreReplaced(text, base, cuts[n - 1..], to, white);
  }

  lemma NoneAndAllCut(text: string, base: nat, cuts: seq<Span>, to: nat, white: char -> bool)
    requires base <= to <= |text| && Apart(cuts, base, to)
    ensures AfterCuts(text, base, cuts, 0, to, white) == text[base..to]
    ensures AfterCuts(text, base, cuts, |cuts|, to, white) == Replaced(text, base, cuts, to, white)
  {
    assert cuts[|cuts|..] == [] && cuts[0..] == cuts;
  }

  /** Cutting by descending start, on the changing text. */
  method CutAll(text: string, base: nat, cuts: seq<Span>, to: nat, white: char -> bool) returns (output: string)
    requires base <= to <= |text| && Apart(cuts, base, to)
    ensures output == Replaced(text, base, cuts, to, white)
  {
    SortingReverses(cuts, base, to);
    NoneAndAllCut(text, base, cuts, to, white);
    var sorted := StableSort(cuts, LaterFirst);
    output := text[base..to];
    for k := 0 to |sorted|
      invariant output == AfterCuts(text, base, cuts, k, to, white)
    {
      CutNext(text, base, cuts, k, to, white);
      output := Cut(output, base, sorted[k], white);
    }
  }

  /**
   The text of a node without its bodies: cutting from the last cut to the first on the changing
   text is replacing all cuts of the original text at once.
   */
  method StripBodies(text: string, node: Node, white: char -> bool) returns (output: string)
    requires Parsed(node) && node.end <= |text|
    ensures Apart(CutsOf(node), node.start, node.end)
    ensures output == Replaced(text, node.start, CutsOf(node), node.end, white)
  {
    var cutter := new Cutter();
    cutter.Visit(node);
    CutsApart(node);
    assert cutter.cuts == CutsOf(node);
    output := CutAll(text, node.start, cutter.cuts, node.end, white);
  }

  // ---------------------------------------------------------------- what is stripped

  lemma KeptBeforeBrace(text: string, s: nat, b: nat, to: nat, white: char -> bool)
    requires s <= b < to <= |text| && text[b] == '{' && '{' !in text[s..b]
    ensures Kept(text[s..to], white) == TrimEnd(text[s..b], white)
  {
    var between := text[s..to];
    assert between[..b - s] == text[s..b] && between[b - s..b - s + 1] == "{";
    forall j: nat | j < b - s ensures !At(between, "{", j) {
      assert between[j] == text[s..b][j];
      if At(between, "{", j) {
        AtPoint(between, "{", j, 0);
        assert false;
      }
    }
    FirstIsFound(between, "{", b - s);
  }

  // ---------------------------------------------------------------- exactly when a body is what goes

  /** What the stripped text holds in place of a node with a body that no other such node encloses. */
  function InPlaceOf(text: string, entry: Node, white: char -> bool): string
    requires Bodied(entry) && entry.end <= |text|
  {
    text[entry.start..SignatureEnd(entry)] + Kept(text[SignatureEnd(entry)..entry.end], white)
  }

  /** The text of the entry up to its body, without white space at the end. */
  ghost predicate OnlyBodyRemoved(text: string, entry: Node, result: string, white: char -> bool)
    requires Bodied(entry) && entry.end <= |text|
  {
    exists k :: RemovedFrom(text, entry, result, white, k)
  }

  predicate RemovedFrom(text: string, entry: Node, result: string, white: char -> bool, k: nat)
    requires Bodied(entry) && entry.end <= |text|
  {
    var body := entry.kind.body.value.start;
    && entry.start <= k <= body && result == text[entry.start..k]
    && forall i :: k <= i < body ==> white(text[i])
  }

  /** The signature has a type or a parameter, and no brace stands between it and the body. */
  predicate CutsAtBody(text: string, entry: Node)
    requires Bodied(entry) && entry.end <= |text|
  {
    !Bare(entry) && '{' !in text[SignatureEnd(entry)..entry.kind.body.value.start]
  }

  predicate OpensWithBrace(text: string, entry: Node)
    requires Bodied(entry) && entry.end <= |text|
  {
    var body := entry.kind.body.value;
    entry.start <= body.start < body.end && text[body.start] == '{'
  }

  lemma {:induction false} TrimEndMeans(s: string, white: char -> bool)
    ensures TrimEnd(s, white) == s[..|TrimEnd(s, white)|]
    ensures forall i :: |TrimEnd(s, white)| <= i < |s| ==> white(s[i])
  {
    if s != [] && white(s[|s| - 1]) {
      TrimEndMeans(s[..|s| - 1], white);
    }
  }

  lemma CleanCutRemovesBody(text: string, entry: Node, white: char -> bool)
    requires Bodied(entry) && entry.end <= |text| && OpensWithBrace(text, entry)
    requires CutsAtBody(text, entry)
    ensures OnlyBodyRemoved(text, entry, InPlaceOf(text, entry, white), white)
  {
    var s, b := SignatureEnd(entry), entry.kind.body.value.start;
    var gap := text[s..b];
    KeptBeforeBrace(text, s, b, entry.end, white);
    TrimEndMeans(gap, white);
    var k := s + |TrimEnd(gap, white)|;
    SliceJoins(text, entry.start, s, k);
    assert gap[..|TrimEnd(gap, white)|] == text[s..k];
    assert forall i :: k <= i < b ==> text[i] == gap[i - s];
    assert RemovedFrom(text, entry, InPlaceOf(text, entry, white), white, k);
  }

  /** A brace in the gap is where the cut is made. */
  lemma EarlyBraceIsCutAt(text: string, entry: Node, white: char -> bool) returns (p: nat)
    requires Bodied(entry) && entry.end <= |text| && !Bare(entry) && !CutsAtBody(text, entry)
    ensures SignatureEnd(entry) <= p < entry.kind.body.value.start && text[p] == '{'
    ensures |InPlaceOf(text, entry, white)| <= p - entry.start
  {
    var s, b := SignatureEnd(entry), entry.kind.body.value.start;
    var between := text[s..entry.end];
    var j :| 0 <= j < b - s && text[s..b][j] == '{';
    assert between[j] == text[s + j] == '{';
    assert between[j..j + 1] == "{";
    assert At(between, "{", j);
    FindMeans(between, "{");
    assert Find(between, "{").Some?;
    p := s + Find(between, "{").value;
    AtPoint(between, "{", p - s, 0);
  }

  /** So text that is not white space goes with the body. */
  lemma EarlyBraceRemovesMore(text: string, entry: Node, white: char -> bool, k: nat)
    requires Bodied(entry) && entry.end <= |text| && !white('{')
    requires !Bare(entry) && !CutsAtBody(text, entry)
    ensures !RemovedFrom(text, entry, InPlaceOf(text, entry, white), white, k)
  {
    var p := EarlyBraceIsCutAt(text, entry, white);
  }

  lemma BareCutRemovesNothing(text: string, entry: Node, white: char -> bool, k: nat)
    requires Bodied(entry) && entry.end <= |text| && OpensWithBrace(text, entry)
    requires Bare(entry)
    ensures !RemovedFrom(text, entry, InPlaceOf(text, entry, white), white, k)
  {
    assert |InPlaceOf(text, entry, white)| >= entry.end - entry.start;
  }

  /** The body is what a cut removes if and only if there is a type or a parameter and no brace before the body. */
  lemma BodyRemovedIff(text: string, entry: Node, white: char -> bool)
    requires Bodied(entry) && entry.end <= |text| && OpensWithBrace(text, entry) && !white('{')
    ensures OnlyBodyRemoved(text, entry, InPlaceOf(text, entry, white), white) <==> CutsAtBody(text, entry)
  {
    if CutsAtBody(text, entry) {
      CleanCutRemovesBody(text, entry, white);
    } else if k :| RemovedFrom(text, entry, InPlaceOf(text, entry, white), white, k) {
      if Bare(entry) {
        BareCutRemovesNothing(text, entry, white, k);
      } else {
        EarlyBraceRemovesMore(text, entry, white, k);
      }
    }
  }

  // ---------------------------------------------------------------- the stripped declaration

  /** Nothing of the nodes from the `i`-th on lies before `from`. */
  predicate Ahead(entries: seq<Node>, i: nat, from: nat, to: nat) {
    i <= |entries| && from <= to && (i < |entries| ==> from <= entries[i].start)
  }

  /** The text from `from`, with what its cut leaves in the place of each node from the `i`-th on. */
  function CutText(text: string, entries: seq<Node>, i: nat, from: nat, to: nat, white: char -> bool): string
    requires to <= |text| && InLine(entries, 0, to) && Ahead(entries, i, from, to)
    decreases |entries| - i
  {
    if i == |entries| then text[from..to]
    else
      text[from..entries[i].start] + InPlaceOf(text, entries[i], white)
      + CutText(text, entries, i + 1, entries[i].end, to, white)
  }

  lemma RegroupLast(x: string, y: string, z: string)
    ensures x + (y + z) == (x + y) + z
  {
  }

  lemma CutOfEntry(text: string, cuts: seq<Span>, entry: Node, from: nat, to: nat, white: char -> bool, rest: string)
    requires from <= entry.start && entry.end <= to <= |text| && Bodied(entry)
    requires InOrder(cuts, from, to) && cuts != [] && cuts[0] == CutOf(entry)
    requires Replaced(text, entry.end, cuts[1..], to, white) == rest
    ensures Replaced(text, from, cuts, to, white) == text[from..entry.start] + InPlaceOf(text, entry, white) + rest
  {
    var s := SignatureEnd(entry);
    SliceJoins(text, from, entry.start, s);
    Regroup(text[from..entry.start], text[entry.start..s], Kept(text[s..entry.end], white), rest);
    RegroupLast(text[entry.start..s], Kept(text[s..entry.end], white), rest);
    RegroupLast(text[from..entry.start], InPlaceOf(text, entry, white), rest);
  }

  lemma CutsInOrder(entries: seq<Node>, i: nat, from: nat, to: nat)
    requires InLine(entries, 0, to) && Ahead(entries, i, from, to)
    ensures InOrder(CutsFor(entries)[i..], from, to)
  {
  }

  /** Replacing the cuts of some nodes puts what they leave in the place of each node. */
  lemma {:induction false} ReplacedIsCutText(
    text: string, entries: seq<Node>, i: nat, from: nat, to: nat, white: char -> bool)
    requires to <= |text| && InLine(entries, 0, to) && Ahead(entries, i, from, to)
    ensures InOrder(CutsFor(entries)[i..], from, to)
    ensures Replaced(text, from, CutsFor(entries)[i..], to, white) == CutText(text, entries, i, from, to, white)
    decreases |entries| - i
  {
    CutsInOrder(entries, i, from, to);
    if i < |entries| {
      ReplacedIsCutText(text, entries, i + 1, entries[i].end, to, white);
      assert CutsFor(entries)[i..][1..] == CutsFor(entries)[i + 1..];
      CutOfEntry(text, CutsFor(entries)[i..], entries[i], from, to, white,
                 CutText(text, entries, i + 1, entries[i].end, to, white));
    }
  }

  /** Stripping a declaration puts what each cut leaves in the place of its node, and keeps the text around them. */
  lemma StrippedInPlace(text: string, node: Node, white: char -> bool)
    requires Parsed(node) && node.end <= |text|
    ensures InLine(EntriesOf(node), node.start, node.end) && Apart(CutsOf(node), node.start, node.end)
    ensures Replaced(text, node.start, CutsOf(node), node.end, white) ==
            CutText(text, EntriesOf(node), 0, node.start, node.end, white)
  {
    EntriesInLine(node);
    CutsApart(node);
    CutsForEntries(node);
    ReplacedIsCutText(text, EntriesOf(node), 0, node.start, node.end, white);
    assert CutsOf(node)[0..] == CutsOf(node);
  }

  // ---------------------------------------------------------------- without the bodies

  /** The node without its body, and without the white space before it. */
  function Bodiless(text: string, entry: Node, white: char -> bool): string
    requires Bodied(entry) && entry.end <= |text|
  {
    TrimEnd(text[entry.start..entry.kind.body.value.start], white)
  }

  /** As the grammar has it: the body opens with a brace, and a signature does not end in white space. */
  predicate Written(text: string, entry: Node, white: char -> bool)
    requires Bodied(entry) && entry.end <= |text|
  {
    && OpensWithBrace(text, entry)
    && (Bare(entry) || !white(text[SignatureEnd(entry) - 1]))
  }

  lemma {:induction false} TrimEndBehind(front: string, gap: string, white: char -> bool)
    requires front != [] && !white(front[|front| - 1])
    ensures TrimEnd(front + gap, white) == front + TrimEnd(gap, white)
  {
    if gap != [] && white(gap[|gap| - 1]) {
      TrimEndBehind(front, gap[..|gap| - 1], white);
      assert (front + gap)[..|front + gap| - 1] == front + gap[..|gap| - 1];
    } else if gap == [] {
      assert front + gap == front;
    }
  }

  lemma CleanPiece(text: string, entry: Node, white: char -> bool)
    requires Bodied(entry) && entry.end <= |text| && Written(text, entry, white)
    requires CutsAtBody(text, entry)
    ensures InPlaceOf(text, entry, white) == Bodiless(text, entry, white)
  {
    var s, b := SignatureEnd(entry), entry.kind.body.value.start;
    KeptBeforeBrace(text, s, b, entry.end, white);
    SliceJoins(text, entry.start, s, b);
    assert text[entry.start..s][s - entry.start - 1] == text[s - 1];
    TrimEndBehind(text[entry.start..s], text[s..b], white);
  }

  lemma BarePieceIsLonger(text: string, entry: Node, white: char -> bool)
    requires Bodied(entry) && entry.end <= |text| && Written(text, entry, white) && Bare(entry)
    ensures |InPlaceOf(text, entry, white)| > |Bodiless(text, entry, white)|
  {
    assert |InPlaceOf(text, entry, white)| >= entry.end - entry.start;
  }

  lemma EarlyPieceIsShorter(text: string, entry: Node, white: char -> bool)
    requires Bodied(entry) && entry.end <= |text| && Written(text, entry, white) && !white('{')
    requires !Bare(entry) && !CutsAtBody(text, entry)
    ensures |InPlaceOf(text, entry, white)| < |Bodiless(text, entry, white)|
  {
    var b := entry.kind.body.value.start;
    var p := EarlyBraceIsCutAt(text, entry, white);
    TrimEndMeans(text[entry.start..b], white);
    assert text[entry.start..b][p - entry.start] == '{';
  }

  /** A cut leaves the node without its body exactly when it is made at the body; otherwise it leaves more, or less. */
  lemma PieceIsBodilessIff(text: string, entry: Node, white: char -> bool)
    requires Bodied(entry) && entry.end <= |text| && Written(text, entry, white) && !white('{')
    ensures InPlaceOf(text, entry, white) == Bodiless(text, entry, white) <==> CutsAtBody(text, entry)
  {
    if CutsAtBody(text, entry) {
      CleanPiece(text, entry, white);
    } else if Bare(entry) {
      BarePieceIsLonger(text, entry, white);
    } else {
      EarlyPieceIsShorter(text, entry, white);
    }
  }

  predicate AllWritten(text: string, entries: seq<Node>, white: char -> bool)
    requires InLine(entries, 0, |text|)
  {
    forall i :: 0 <= i < |entries| ==> Written(text, entries[i], white)
  }

  /** The text from `from`, in which the nodes from the `i`-th on stand without their bodies. */
  function BodilessText(text: string, entries: seq<Node>, i: nat, from: nat, to: nat, white: char -> bool): string
    requires to <= |text| && InLine(entries, 0, to) && Ahead(entries, i, from, to)
    decreases |entries| - i
  {
    if i == |entries| then text[from..to]
    else
      text[from..entries[i].start] + Bodiless(text, entries[i], white)
      + BodilessText(text, entries, i + 1, entries[i].end, to, white)
  }

  lemma CutTextFrom(text: string, entries: seq<Node>, i: nat, from: nat, p: nat, to: nat, white: char -> bool)
    requires to <= |text| && InLine(entries, 0, to) && Ahead(entries, i, p, to) && from <= p
    ensures CutText(text, entries, i, from, to, white) == text[from..p] + CutText(text, entries, i, p, to, white)
  {
    if i < |entries| {
      SliceJoins(text, from, p, entries[i].start);
      Regroup(text[from..p], text[p..entries[i].start], InPlaceOf(text, entries[i], white),
              CutText(text, entries, i + 1, entries[i].end, to, white));
    }
  }

  lemma BodilessTextFrom(text: string, entries: seq<Node>, i: nat, from: nat, p: nat, to: nat, white: char -> bool)
    requires to <= |text| && InLine(entries, 0, to)
    requires Ahead(entries, i, p, to) && from <= p
    ensures BodilessText(text, entries, i, from, to, white) ==
            text[from..p] + BodilessText(text, entries, i, p, to, white)
  {
    if i < |entries| {
      SliceJoins(text, from, p, entries[i].start);
      Regroup(text[from..p], text[p..entries[i].start], Bodiless(text, entries[i], white),
              BodilessText(text, entries, i + 1, entries[i].end, to, white));
    }
  }

  lemma SameRest(front: string, x: string, y: string)
    requires front + x == front + y
    ensures x == y
  {
    assert (front + x)[|front|..] == x && (front + y)[|front|..] == y;
  }

  lemma SameMiddle(front: string, x: string, y: string, rest: string)
    ensures front + x + rest == front + y + rest <==> x == y
  {
    if front + x + rest == front + y + rest {
      assert |x| == |y|;
      assert (front + x + rest)[|front|..|front| + |x|] == x && (front + y + rest)[|front|..|front| + |y|] == y;
    }
  }

  /** From the `i`-th node on, exactly the bodies are gone. */
  predicate RightFrom(text: string, entries: seq<Node>, i: nat, from: nat, to: nat, white: char -> bool)
    requires to <= |text| && InLine(entries, 0, to) && Ahead(entries, i, from, to)
  {
    CutText(text, entries, i, from, to, white) == BodilessText(text, entries, i, from, to, white)
  }

  /** What is right behind a node is right from anywhere before it. */
  lemma RightBehind(text: string, entries: seq<Node>, i: nat, from: nat, p: nat, to: nat, white: char -> bool)
    requires to <= |text| && InLine(entries, 0, to)
    requires Ahead(entries, i, p, to) && from <= p
    ensures RightFrom(text, entries, i, from, to, white) <==> RightFrom(text, entries, i, p, to, white)
  {
    CutTextFrom(text, entries, i, from, p, to, white);
    BodilessTextFrom(text, entries, i, from, p, to, white);
    if RightFrom(text, entries, i, from, to, white) {
      SameRest(text[from..p], CutText(text, entries, i, p, to, white), BodilessText(text, entries, i, p, to, white));
    }
  }

  /** With the bodies behind it gone, the body of a node goes as well exactly when its cut is made there. */
  lemma OneMoreRight(text: string, entries: seq<Node>, i: nat, from: nat, to: nat, white: char -> bool)
    requires to <= |text| && InLine(entries, 0, to) && AllWritten(text, entries, white) && !white('{')
    requires i < |entries| && Ahead(entries, i, from, to) && RightFrom(text, entries, i + 1, from, to, white)
    ensures RightFrom(text, entries, i, from, to, white) <==> CutsAtBody(text, entries[i])
  {
    RightBehind(text, entries, i + 1, from, entries[i].end, to, white);
    SameMiddle(text[from..entries[i].start], InPlaceOf(text, entries[i], white), Bodiless(text, entries[i], white),
               CutText(text, entries, i + 1, entries[i].end, to, white));
    PieceIsBodilessIff(text, entries[i], white);
  }

  predicate CutFrom(text: string, entries: seq<Node>, i: nat)
    requires InLine(entries, 0, |text|)
  {
    forall j :: i <= j < |entries| ==> CutsAtBody(text, entries[j])
  }

  predicate RightFromEach(text: string, entries: seq<Node>, i: nat, from: nat, to: nat, white: char -> bool)
    requires to <= |text| && InLine(entries, 0, to) && Ahead(entries, i, from, to)
  {
    forall j :: i <= j <= |entries| ==> RightFrom(text, entries, j, from, to, white)
  }

  lemma RightFromEachMore(text: string, entries: seq<Node>, i: nat, from: nat, to: nat, white: char -> bool)
    requires to <= |text| && InLine(entries, 0, to)
    requires Ahead(entries, i, from, to) && i < |entries|
    ensures RightFromEach(text, entries, i, from, to, white) <==>
            RightFromEach(text, entries, i + 1, from, to, white) && RightFrom(text, entries, i, from, to, white)
    ensures RightFromEach(text, entries, i + 1, from, to, white) ==> RightFrom(text, entries, i + 1, from, to, white)
    ensures CutFrom(text, entries, i) <==> CutFrom(text, entries, i + 1) && CutsAtBody(text, entries[i])
  {
  }

  /** All is right from every node on exactly when all cuts are made at their bodies. */
  lemma {:induction false} RightFromEachIff(
    text: string, entries: seq<Node>, i: nat, from: nat, to: nat, white: char -> bool)
    requires to <= |text| && InLine(entries, 0, to) && AllWritten(text, entries, white) && !white('{')
    requires Ahead(entries, i, from, to)
    ensures RightFromEach(text, entries, i, from, to, white) <==> CutFrom(text, entries, i)
    decreases |entries| - i
  {
    if i < |entries| {
      RightFromEachMore(text, entries, i, from, to, white);
      RightFromEachIff(text, entries, i + 1, from, to, white);
      if RightFromEach(text, entries, i + 1, from, to, white) {
        OneMoreRight(text, entries, i, from, to, white);
      }
    }
  }

  /** Every outermost body of a declaration is written as the grammar has it. */
  ghost predicate DeclarationWritten(text: string, node: Node, white: char -> bool)
    requires Parsed(node) && node.end <= |text|
  {
    EntriesInLine(node);
    AllWritten(text, EntriesOf(node), white)
  }

  /** The declaration in which the last `k` bodies are gone, with the white space before them. */
  function WithoutLast(text: string, node: Node, k: nat, white: char -> bool): string
    requires Parsed(node) && node.end <= |text| && DeclarationWritten(text, node, white) && k <= |EntriesOf(node)|
  {
    EntriesInLine(node);
    BodilessText(text, EntriesOf(node), |EntriesOf(node)| - k, node.start, node.end, white)
  }

  /** After `k` rounds, exactly the last `k` bodies are gone from the text. */
  predicate RightAfter(text: string, node: Node, k: nat, white: char -> bool)
    requires Parsed(node) && node.end <= |text| && DeclarationWritten(text, node, white)
    requires Apart(CutsOf(node), node.start, node.end) && k <= |EntriesOf(node)| == |CutsOf(node)|
  {
    AfterCuts(text, node.start, CutsOf(node), k, node.end, white) == WithoutLast(text, node, k, white)
  }

  lemma AfterLastCuts(text: string, base: nat, cuts: seq<Span>, j: nat, k: nat, to: nat, white: char -> bool)
    requires base <= to <= |text| && Apart(cuts, base, to) && j + k == |cuts|
    ensures AfterCuts(text, base, cuts, k, to, white) == Replaced(text, base, cuts[j..], to, white)
  {
  }

  lemma AfterCutsIsCutText(text: string, entries: seq<Node>, j: nat, k: nat, from: nat, to: nat, white: char -> bool)
    requires from <= to <= |text| && InLine(entries, from, to) && Apart(CutsFor(entries), from, to)
    requires j + k == |entries|
    ensures AfterCuts(text, from, CutsFor(entries), k, to, white) == CutText(text, entries, j, from, to, white)
  {
    AfterLastCuts(text, from, CutsFor(entries), j, k, to, white);
    ReplacedIsCutText(text, entries, j, from, to, white);
  }

  lemma RoundIsRight(text: string, node: Node, j: nat, k: nat, white: char -> bool)
    requires Parsed(node) && node.end <= |text| && DeclarationWritten(text, node, white)
    requires InLine(EntriesOf(node), node.start, node.end) && CutsOf(node) == CutsFor(EntriesOf(node))
    requires Apart(CutsOf(node), node.start, node.end) && j + k == |EntriesOf(node)|
    ensures RightAfter(text, node, k, white) <==> RightFrom(text, EntriesOf(node), j, node.start, node.end, white)
  {
    AfterCutsIsCutText(text, EntriesOf(node), j, k, node.start, node.end, white);
  }

  /**
   Each round of the stripping removes one more body, and nothing else but the white space before
   it, if and only if every cut is made at its body.
   */
  lemma StrippedIffCutAtBodies(text: string, node: Node, white: char -> bool)
    requires Parsed(node) && node.end <= |text| && DeclarationWritten(text, node, white) && !white('{')
    ensures Apart(CutsOf(node), node.start, node.end) && |CutsOf(node)| == |EntriesOf(node)|
    ensures (forall k :: 0 <= k <= |EntriesOf(node)| ==> RightAfter(text, node, k, white)) <==>
            forall entry :: Outermost(node, entry) ==>
              Bodied(entry) && entry.end <= |text| && CutsAtBody(text, entry)
  {
    EntriesInLine(node);
    CutsApart(node);
    CutsForEntries(node);
    RoundsAsPlaces(text, node, white);
    RightFromEachIff(text, EntriesOf(node), 0, node.start, node.end, white);
    CutAtOutermost(text, node);
  }

  lemma RoundsAsPlaces(text: string, node: Node, white: char -> bool)
    requires Parsed(node) && node.end <= |text| && DeclarationWritten(text, node, white)
    requires InLine(EntriesOf(node), node.start, node.end) && CutsOf(node) == CutsFor(EntriesOf(node))
    requires Apart(CutsOf(node), node.start, node.end)
    ensures (forall k :: 0 <= k <= |EntriesOf(node)| ==> RightAfter(text, node, k, white)) <==>
            RightFromEach(text, EntriesOf(node), 0, node.start, node.end, white)
  {
    if forall k :: 0 <= k <= |EntriesOf(node)| ==> RightAfter(text, node, k, white) {
      PlacesOfRounds(text, node, white);
    }
    if RightFromEach(text, EntriesOf(node), 0, node.start, node.end, white) {
      forall k | 0 <= k <= |EntriesOf(node)| ensures RightAfter(text, node, k, white) {
        RoundIsRight(text, node, |EntriesOf(node)| - k, k, white);
      }
    }
  }

  lemma PlacesOfRounds(text: string, node: Node, white: char -> bool)
    requires Parsed(node) && node.end <= |text| && DeclarationWritten(text, node, white)
    requires InLine(EntriesOf(node), node.start, node.end) && CutsOf(node) == CutsFor(EntriesOf(node))
    requires Apart(CutsOf(node), node.start, node.end)
    requires forall k :: 0 <= k <= |EntriesOf(node)| ==> RightAfter(text, node, k, white)
    ensures RightFromEach(text, EntriesOf(node), 0, node.start, node.end, white)
  {
    var n := |EntriesOf(node)|;
    forall j | 0 <= j <= n ensures RightFrom(text, EntriesOf(node), j, node.start, node.end, white) {
      assert RightAfter(text, node, n - j, white);
      RoundIsRight(text, node, j, n - j, white);
    }
  }

  lemma CutAtOutermost(text: string, node: Node)
    requires Parsed(node) && node.end <= |text| && InLine(EntriesOf(node), node.start, node.end)
    ensures CutFrom(text, EntriesOf(node), 0) <==>
            forall entry :: Outermost(node, entry) ==>
              Bodied(entry) && entry.end <= |text| && CutsAtBody(text, entry)
  {
    var entries := EntriesOf(node);
    forall entry ensures entry in entries <==> Outermost(node, entry) {
      EntryIsOutermost(node, entry);
    }
    if CutFrom(text, entries, 0) {
      forall entry | Outermost(node, entry)
        ensures Bodied(entry) && entry.end <= |text| && CutsAtBody(text, entry)
      {
        var i :| 0 <= i < |entries| && entries[i] == entry;
      }
    } else {
      var i :| 0 <= i < |entries| && !CutsAtBody(text, entries[i]);
      assert Outermost(node, entries[i]);
    }
  }

  // ---------------------------------------------------------------- the final text

  predicate NoneBare(entries: seq<Node>)
    requires forall i :: 0 <= i < |entries| ==> HasBody(entries[i])
  {
    forall i :: 0 <= i < |entries| ==> !Bare(entries[i])
  }

  /** No brace stands between a signature and its body. */
  predicate NoEarlyBrace(text: string, entries: seq<Node>)
    requires InLine(entries, 0, |text|)
  {
    forall i :: 0 <= i < |entries| ==> Bare(entries[i]) || CutsAtBody(text, entries[i])
  }

  /** How much longer the cut text is than the text without bodies, from the `i`-th node on. */
  function Excess(text: string, entries: seq<Node>, i: nat, white: char -> bool): int
    requires InLine(entries, 0, |text|) && i <= |entries|
    decreases |entries| - i
  {
    if i == |entries| then 0
    else
      |InPlaceOf(text, entries[i], white)| - |Bodiless(text, entries[i], white)|
      + Excess(text, entries, i + 1, white)
  }

  lemma LengthsAdd(text: string, entries: seq<Node>, i: nat, from: nat, to: nat, white: char -> bool)
    requires to <= |text| && InLine(entries, 0, to)
    requires Ahead(entries, i, from, to) && i < |entries|
    ensures |CutText(text, entries, i, from, to, white)| ==
            entries[i].start - from + |InPlaceOf(text, entries[i], white)|
            + |CutText(text, entries, i + 1, entries[i].end, to, white)|
    ensures |BodilessText(text, entries, i, from, to, white)| ==
            entries[i].start - from + |Bodiless(text, entries[i], white)|
            + |BodilessText(text, entries, i + 1, entries[i].end, to, white)|
  {
  }

  function Longer(text: string, entries: seq<Node>, i: nat, from: nat, to: nat, white: char -> bool): int
    requires to <= |text| && InLine(entries, 0, to) && Ahead(entries, i, from, to)
  {
    |CutText(text, entries, i, from, to, white)| - |BodilessText(text, entries, i, from, to, white)|
  }

  lemma {:induction false} ExcessIs(
    text: string, entries: seq<Node>, i: nat, from: nat, to: nat, white: char -> bool)
    requires to <= |text| && InLine(entries, 0, to) && Ahead(entries, i, from, to)
    ensures Longer(text, entries, i, from, to, white) == Excess(text, entries, i, white)
    decreases |entries| - i, 1
  {
    if i < |entries| {
      ExcessBehind(text, entries, i, from, to, white);
    }
  }

  lemma {:induction false} ExcessBehind(
    text: string, entries: seq<Node>, i: nat, from: nat, to: nat, white: char -> bool)
    requires to <= |text| && InLine(entries, 0, to) && Ahead(entries, i, from, to) && i < |entries|
    ensures Longer(text, entries, i, from, to, white) == Excess(text, entries, i, white)
    decreases |entries| - i, 0
  {
    ExcessIs(text, entries, i + 1, entries[i].end, to, white);
    LongerBy(text, entries, i, from, to, white);
  }

  lemma LongerBy(text: string, entries: seq<Node>, i: nat, from: nat, to: nat, white: char -> bool)
    requires to <= |text| && InLine(entries, 0, to)
    requires Ahead(entries, i, from, to) && i < |entries|
    ensures Longer(text, entries, i, from, to, white) ==
            |InPlaceOf(text, entries[i], white)| - |Bodiless(text, entries[i], white)|
            + Longer(text, entries, i + 1, entries[i].end, to, white)
  {
    LengthsAdd(text, entries, i, from, to, white);
  }

  lemma PieceTells(text: string, entry: Node, white: char -> bool)
    requires Bodied(entry) && entry.end <= |text| && Written(text, entry, white) && !white('{')
    ensures var excess := |InPlaceOf(text, entry, white)| - |Bodiless(text, entry, white)|;
            if CutsAtBody(text, entry) then excess == 0 else if Bare(entry) then excess > 0 else excess < 0
  {
    if CutsAtBody(text, entry) {
      CleanPiece(text, entry, white);
    } else if Bare(entry) {
      BarePieceIsLonger(text, entry, white);
    } else {
      EarlyPieceIsShorter(text, entry, white);
    }
  }

  /** Cuts before a body only shorten the text, and cuts of bare signatures only lengthen it. */
  lemma {:induction false} ExcessTells(text: string, entries: seq<Node>, i: nat, white: char -> bool)
    requires InLine(entries, 0, |text|) && AllWritten(text, entries, white) && !white('{') && i <= |entries|
    ensures NoneBare(entries) ==> Excess(text, entries, i, white) <= 0
    ensures NoEarlyBrace(text, entries) ==> Excess(text, entries, i, white) >= 0
    ensures (NoneBare(entries) || NoEarlyBrace(text, entries)) && Excess(text, entries, i, white) == 0 ==>
              CutFrom(text, entries, i)
    decreases |entries| - i
  {
    if i < |entries| {
      ExcessTells(text, entries, i + 1, white);
      PieceTells(text, entries[i], white);
      OneMoreCut(text, entries, i);
    }
  }

  lemma OneMoreCut(text: string, entries: seq<Node>, i: nat)
    requires InLine(entries, 0, |text|) && i < |entries|
    ensures CutFrom(text, entries, i) <==> CutFrom(text, entries, i + 1) && CutsAtBody(text, entries[i])
    ensures NoneBare(entries) ==> !Bare(entries[i])
    ensures NoEarlyBrace(text, entries) ==> Bare(entries[i]) || CutsAtBody(text, entries[i])
  {
  }

  /**
   Unless a bare signature and an early brace come together, the stripped declaration is the one
   without its bodies if and only if every cut is made at its body.
   */
  lemma StrippedTextIff(text: string, node: Node, white: char -> bool)
    requires Parsed(node) && node.end <= |text| && DeclarationWritten(text, node, white) && !white('{')
    requires InLine(EntriesOf(node), 0, |text|) ==> NoneBare(EntriesOf(node)) || NoEarlyBrace(text, EntriesOf(node))
    ensures Apart(CutsOf(node), node.start, node.end)
    ensures Replaced(text, node.start, CutsOf(node), node.end, white) ==
            WithoutLast(text, node, |EntriesOf(node)|, white)
            <==> forall entry :: Outermost(node, entry) ==>
                   Bodied(entry) && entry.end <= |text| && CutsAtBody(text, entry)
  {
    StrippedInPlace(text, node, white);
    FinalTextIff(text, EntriesOf(node), node.start, node.end, white);
    CutAtOutermost(text, node);
  }

  lemma FinalTextIff(text: string, entries: seq<Node>, from: nat, to: nat, white: char -> bool)
    requires to <= |text| && InLine(entries, 0, to) && AllWritten(text, entries, white) && !white('{')
    requires Ahead(entries, 0, from, to) && (NoneBare(entries) || NoEarlyBrace(text, entries))
    ensures CutText(text, entries, 0, from, to, white) == BodilessText(text, entries, 0, from, to, white) <==>
            CutFrom(text, entries, 0)
  {
    ExcessIs(text, entries, 0, from, to, white);
    ExcessTells(text, entries, 0, white);
    RightFromEachIff(text, entries, 0, from, to, white);
    assert RightFromEach(text, entries, 0, from, to, white) ==> RightFrom(text, entries, 0, from, to, white);
  }

  // ---------------------------------------------------------------- one node of a declaration

  /** The stripped text before the `i`-th node with a body. */
  function TextBefore(text: string, entries: seq<Node>, i: nat, from: nat, white: char -> bool): string
    requires InLine(entries, from, |text|) && i < |entries|
    decreases i
  {
    if i == 0 then text[from..entries[0].start]
    else
      TextBefore(text, entries, i - 1, from, white) + InPlaceOf(text, entries[i - 1], white)
      + text[entries[i - 1].end..entries[i].start]
  }

  predicate SplitsAt(text: string, entries: seq<Node>, i: nat, from: nat, to: nat, white: char -> bool)
    requires to <= |text| && InLine(entries, from, to) && i < |entries|
  {
    CutText(text, entries, 0, from, to, white) ==
    TextBefore(text, entries, i, from, white) + CutText(text, entries, i, entries[i].start, to, white)
  }

  lemma {:induction false} CutTextSplits(
    text: string, entries: seq<Node>, i: nat, from: nat, to: nat, white: char -> bool)
    requires to <= |text| && InLine(entries, from, to) && i < |entries|
    ensures SplitsAt(text, entries, i, from, to, white)
    decreases i
  {
    if i == 0 {
      FirstSplits(text, entries, from, to, white);
    } else {
      CutTextSplits(text, entries, i - 1, from, to, white);
      OneMoreBefore(text, entries, i, from, to, white);
    }
  }

  lemma FirstSplits(text: string, entries: seq<Node>, from: nat, to: nat, white: char -> bool)
    requires to <= |text| && InLine(entries, from, to) && entries != []
    ensures SplitsAt(text, entries, 0, from, to, white)
  {
    CutTextFrom(text, entries, 0, from, entries[0].start, to, white);
  }

  lemma RegroupFour(x: string, y: string, z: string, w: string)
    ensures x + (y + (z + w)) == x + y + z + w
  {
  }

  lemma OneMoreBefore(text: string, entries: seq<Node>, i: nat, from: nat, to: nat, white: char -> bool)
    requires to <= |text| && InLine(entries, from, to) && 0 < i < |entries|
    requires SplitsAt(text, entries, i - 1, from, to, white)
    ensures SplitsAt(text, entries, i, from, to, white)
  {
    var e := entries[i - 1];
    NodeAndGap(text, entries, i, to, white);
    RegroupFour(TextBefore(text, entries, i - 1, from, white), InPlaceOf(text, e, white),
                text[e.end..entries[i].start], CutText(text, entries, i, entries[i].start, to, white));
  }

  lemma NodeAndGap(text: string, entries: seq<Node>, i: nat, to: nat, white: char -> bool)
    requires to <= |text| && InLine(entries, 0, to) && 0 < i < |entries|
    ensures var e := entries[i - 1];
            CutText(text, entries, i - 1, e.start, to, white) ==
            InPlaceOf(text, e, white) +
                (text[e.end..entries[i].start] + CutText(text, entries, i, entries[i].start, to, white))
  {
    CutTextFrom(text, entries, i, entries[i - 1].end, entries[i].start, to, white);
    NodeFirst(text, entries, i - 1, to, white);
  }

  lemma EmptyInFront(text: string, p: nat, x: string, y: string)
    requires p <= |text|
    ensures text[p..p] + x + y == x + y
  {
    assert text[p..p] + x == x;
  }

  lemma NodeFirst(text: string, entries: seq<Node>, i: nat, to: nat, white: char -> bool)
    requires to <= |text| && InLine(entries, 0, to) && i < |entries|
    ensures CutText(text, entries, i, entries[i].start, to, white) ==
            InPlaceOf(text, entries[i], white) + CutText(text, entries, i + 1, entries[i].end, to, white)
  {
    EmptyInFront(text, entries[i].start, InPlaceOf(text, entries[i], white),
                 CutText(text, entries, i + 1, entries[i].end, to, white));
  }

  /** A node with a body that no other encloses is stripped on its own, wherever it stands in the declaration. */
  lemma StrippedAround(text: string, node: Node, entry: Node, white: char -> bool) returns (i: nat)
    requires Parsed(node) && node.end <= |text| && Outermost(node, entry)
    ensures Apart(CutsOf(node), node.start, node.end) && InLine(EntriesOf(node), node.start, node.end)
    ensures i < |EntriesOf(node)| && EntriesOf(node)[i] == entry
    ensures Replaced(text, node.start, CutsOf(node), node.end, white) ==
            TextBefore(text, EntriesOf(node), i, node.start, white) + InPlaceOf(text, entry, white)
            + CutText(text, EntriesOf(node), i + 1, entry.end, node.end, white)
  {
    var entries := EntriesOf(node);
    EntryIsOutermost(node, entry);
    i :| 0 <= i < |entries| && entries[i] == entry;
    StrippedInPlace(text, node, white);
    CutTextSplits(text, entries, i, node.start, node.end, white);
    NodeFirst(text, entries, i, node.end, white);
    RegroupLast(TextBefore(text, entries, i, node.start, white), InPlaceOf(text, entry, white),
                CutText(text, entries, i + 1, entry.end, node.end, white));
  }

  /** A signature with neither type nor parameters ends where the node does: its body stays in the declaration. */
  lemma BareSignatureKeepsBody(text: string, node: Node, entry: Node, white: char -> bool) returns (i: nat)
    requires Parsed(node) && node.end <= |text| && Outermost(node, entry) && HasBody(entry) && Bare(entry)
    ensures Apart(CutsOf(node), node.start, node.end) && InLine(EntriesOf(node), node.start, node.end)
    ensures i < |EntriesOf(node)| && EntriesOf(node)[i] == entry
    ensures Replaced(text, node.start, CutsOf(node), node.end, white) ==
            TextBefore(text, EntriesOf(node), i, node.start, white) + text[entry.start..entry.end]
            + CutText(text, EntriesOf(node), i + 1, entry.end, node.end, white)
  {
    i := StrippedAround(text, node, entry, white);
    BareStays(text, entry, white);
  }

  lemma BareStays(text: string, entry: Node, white: char -> bool)
    requires Bodied(entry) && entry.end <= |text| && Bare(entry)
    ensures InPlaceOf(text, entry, white) == text[entry.start..entry.end]
  {
    KeptIffEmpty(text[entry.end..entry.end], white);
  }

  /** Otherwise the signature stays in the declaration, and the body goes, when no brace stands between the two. */
  lemma SignatureStays(text: string, node: Node, entry: Node, white: char -> bool) returns (i: nat)
    requires Parsed(node) && node.end <= |text| && Outermost(node, entry)
    requires Bodied(entry) && entry.end <= |text| && CutsAtBody(text, entry) && OpensWithBrace(text, entry)
    ensures Apart(CutsOf(node), node.start, node.end) && InLine(EntriesOf(node), node.start, node.end)
    ensures i < |EntriesOf(node)| && EntriesOf(node)[i] == entry
    ensures var s := SignatureEnd(entry);
            Replaced(text, node.start, CutsOf(node), node.end, white) ==
            TextBefore(text, EntriesOf(node), i, node.start, white)
            + (text[entry.start..s] + TrimEnd(text[s..entry.kind.body.value.start], white))
            + CutText(text, EntriesOf(node), i + 1, entry.end, node.end, white)
  {
    i := StrippedAround(text, node, entry, white);
    KeptBeforeBrace(text, SignatureEnd(entry), entry.kind.body.value.start, entry.end, white);
  }

  /** `e` is where a parameter or the return type of the signature ends. */
  predicate EndsPart(entry: Node, e: nat)
    requires HasBody(entry)
  {
    e in entry.kind.parameterEnds || entry.kind.typeEnd == Some(e)
  }

  /** Parameters in the order they are written, inside the node, and the return type behind them. */
  predicate PartsInOrder(entry: Node)
    requires HasBody(entry)
  {
    var ends := entry.kind.parameterEnds;
    && (forall i, j :: 0 <= i < j < |ends| ==> ends[i] <= ends[j])
    && (forall e :: e in ends ==> entry.start <= e)
    && (entry.kind.typeEnd.Some? ==> entry.start <= entry.kind.typeEnd.value)
    && (entry.kind.typeEnd.Some? ==> forall e :: e in ends ==> e <= entry.kind.typeEnd.value)
  }

  /** Whatever else is cut, every parameter and the return type stay in the declaration, with all before them. */
  lemma PartsStay(text: string, node: Node, entry: Node, e: nat, white: char -> bool) returns (i: nat, rest: string)
    requires Parsed(node) && node.end <= |text| && Outermost(node, entry)
    requires HasBody(entry) && PartsInOrder(entry) && EndsPart(entry, e)
    ensures e <= entry.end <= |text|
    ensures Apart(CutsOf(node), node.start, node.end) && InLine(EntriesOf(node), node.start, node.end)
    ensures i < |EntriesOf(node)| && EntriesOf(node)[i] == entry
    ensures Replaced(text, node.start, CutsOf(node), node.end, white) ==
            TextBefore(text, EntriesOf(node), i, node.start, white) + (text[entry.start..e] + rest)
            + CutText(text, EntriesOf(node), i + 1, entry.end, node.end, white)
  {
    i := StrippedAround(text, node, entry, white);
    rest := PartStays(text, entry, e, white);
  }

  lemma PartInSignature(entry: Node, e: nat)
    requires HasBody(entry) && PartsInOrder(entry) && EndsPart(entry, e)
    ensures entry.start <= e <= SignatureEnd(entry)
  {
  }

  lemma PartStays(text: string, entry: Node, e: nat, white: char -> bool) returns (rest: string)
    requires Bodied(entry) && entry.end <= |text| && PartsInOrder(entry) && EndsPart(entry, e)
    ensures entry.start <= e <= entry.end && InPlaceOf(text, entry, white) == text[entry.start..e] + rest
  {
    var s := SignatureEnd(entry);
    PartInSignature(entry, e);
    rest := text[e..s] + Kept(text[s..entry.end], white);
    SliceJoins(text, entry.start, e, s);
    Associate(text[entry.start..e], text[e..s], Kept(text[s..entry.end], white));
  }

  lemma Associate(x: string, y: string, z: string)
    ensures (x + y) + z == x + (y + z)
  {
  }

  /** The method of `class C { f(a) /* { */ {} }`, and the class. */
  const METHOD := Node(10, 25, FunctionLike(None, [13], Some(Span(23, 25))), [])
  const CLASS := Node(0, 27, OtherKind, [Node(6, 7, OtherKind, []), METHOD])

  lemma ClassParsed()
    ensures Parsed(CLASS) && Outermost(CLASS, METHOD)
  {
    assert Parsed(METHOD) && Parsed(CLASS.children[0]);
    assert CLASS.children[1] == METHOD && Outermost(METHOD, METHOD);
  }

  lemma ClassCut()
    ensures CutsOf(CLASS) == [Span(13, 25)]
  {
    assert CutsBelow(CLASS.children[0], 0) == [];
    assert CutsBelow(CLASS, 0) == [] && CutsBelow(CLASS, 1) == [];
    assert CutsOf(METHOD) == [Span(13, 25)] && CutsBelow(CLASS, 2) == [Span(13, 25)];
  }

  lemma CommentKept(white: char -> bool)
    requires white(' ') && !white('*')
    ensures TrimEnd(") /* ", white) == ") /*"
  {
    var gap := ") /* ";
    assert gap[..4] == ") /*" && gap[4] == ' ' && gap[..4][3] == '*';
    assert TrimEnd(gap, white) == TrimEnd(gap[..4], white);
  }

  /** `class C { f(a) /* { */ {} }` is cut inside its comment. */
  lemma BraceInCommentIsCutAt(white: char -> bool)
    requires white(' ') && !white('*')
    ensures Parsed(CLASS) && Outermost(CLASS, METHOD) && Apart(CutsOf(CLASS), 0, 27)
    ensures var text := "class C { f(a" + ") /* " + "{ */ {}" + " }";
            Replaced(text, 0, CutsOf(CLASS), 27, white) == "class C { f(a" + ") /*" + " }"
  {
    var text := "class C { f(a" + ") /* " + "{ */ {}" + " }";
    ClassParsed();
    ClassCut();
    OnlyCut(text, 0, Span(13, 25), 27, white);
    assert text[13..18] == ") /* " && text[18] == '{' && text[0..13] == "class C { f(a" && text[25..27] == " }";
    KeptBeforeBrace(text, 13, 18, 25, white);
    CommentKept(white);
  }
}
