/** When the page graph has no cycle, every page continues each of its invocations below. */
module HelpPageClosure {
  import opened Outcomes
  import opened HelpPages
  import opened HelpPageGraph
  import opened HelpPageWalks

  /** Ranks fall along every edge, so the page graph has no cycle. */
  ghost predicate Ranked(cli: Cli, book: Book, rank: Output -> nat) {
    forall p, name :: Edge(cli, book, p, name).Some? ==> rank(Edge(cli, book, p, name).value) < rank(p)
  }

  lemma RankedBefore(cli: Cli, book: Book, more: Book, rank: Output -> nat)
    requires Ranked(cli, more, rank) && SameCalls(book, more)
    ensures Ranked(cli, book, rank)
  {
    forall p, name | Edge(cli, book, p, name).Some? ensures rank(Edge(cli, book, p, name).value) < rank(p) {
      assert Edge(cli, more, p, name) == Edge(cli, book, p, name);
    }
  }

  predicate Continued(book: Book, i: Invocation, c: Child) {
    c.output in book && Extended(i, c.name) in book[c.output].invocations
  }

  /** The page continues the invocation on all the children. */
  predicate ContinuedAll(book: Book, i: Invocation, children: seq<Child>) {
    forall c :: c in children ==> Continued(book, i, c)
  }

  predicate ClosedPage(book: Book, o: Output)
    requires o in book
  {
    forall i :: i in book[o].invocations ==> ContinuedAll(book, i, book[o].children)
  }

  /** Every page outside `open` continues each of its invocations on each of its children. */
  predicate Closed(book: Book, open: set<Output>) {
    forall o :: o in book && o !in open ==> ClosedPage(book, o)
  }

  /** Pages of at least this rank are as they were. */
  predicate Untouched(book: Book, more: Book, rank: Output -> nat, least: nat) {
    book.Keys <= more.Keys && forall p :: p in book && rank(p) >= least ==> more[p] == book[p]
  }

  predicate AllAtLeast(pages: set<Output>, rank: Output -> nat, least: nat) {
    forall p :: p in pages ==> rank(p) >= least
  }

  lemma ContinuedStays(book: Book, more: Book, i: Invocation, children: seq<Child>)
    requires Grown(book, more) && ContinuedAll(book, i, children)
    ensures ContinuedAll(more, i, children)
  {
    forall c | c in children ensures Continued(more, i, c) {
      assert Continued(book, i, c);
    }
  }

  lemma ClosedPageStays(book: Book, more: Book, o: Output)
    requires Grown(book, more) && o in book && ClosedPage(book, o) && more[o].invocations == book[o].invocations
    ensures ClosedPage(more, o)
  {
    forall i | i in more[o].invocations ensures ContinuedAll(more, i, more[o].children) {
      ContinuedStays(book, more, i, book[o].children);
    }
  }

  lemma RecordOpens(cli: Cli, book: Book, o: Output, i: Invocation, open: set<Output>)
    requires Sound(cli, book) && Closed(book, open) && o in book && i !in book[o].invocations
    ensures Closed(Record(book, o, i), open + {o})
  {
    var r := Record(book, o, i);
    RecordSound(cli, book, o, i);
    forall p | p in r && p !in open + {o} ensures ClosedPage(r, p) {
      ClosedPageStays(book, r, p);
    }
  }

  /** Once the new invocation is continued on all children, the page is closed again. */
  lemma PageCloses(book: Book, recorded: Book, r: Book, o: Output, i: Invocation, open: set<Output>)
    requires o in book && ClosedPage(book, o)
    requires recorded == Record(book, o, i) && Grown(book, r)
    requires Closed(r, open + {o}) && r[o] == recorded[o] && ContinuedAll(r, i, book[o].children)
    ensures Closed(r, open)
  {
    forall j | j in r[o].invocations ensures ContinuedAll(r, j, r[o].children) {
      if j != i {
        assert j in book[o].invocations;
        ContinuedStays(book, r, j, book[o].children);
      }
    }
    assert ClosedPage(r, o);
  }

  /** Recording an alias on a page below everything on the path closes what it touches and leaves the rest. */
  ghost predicate AliasCloses(book: Book, r: Book, rank: Output -> nat, o: Output, open: set<Output>) {
    Closed(r, open) && Untouched(book, r, rank, rank(o) + 1)
  }

  lemma {:induction false} AliasClosed(
    cli: Cli, book: Book, rank: Output -> nat, o: Output, i: Invocation, path: set<Output>, open: set<Output>)
    requires Sound(cli, book) && Ranked(cli, book, rank) && Closed(book, open)
    requires AllAtLeast(path, rank, rank(o) + 1) && AllAtLeast(open, rank, rank(o) + 1)
    ensures AliasCloses(book, AddAlias(book, o, i, path), rank, o, open)
    decreases |book.Keys - path|, 0, 0
  {
    if o in book && i !in book[o].invocations {
      var recorded := Record(book, o, i);
      AliasOpens(cli, book, recorded, rank, o, i, path, open);
      SmallerRest(book.Keys, path, o);
      AliasBelowClosed(cli, recorded, rank, o, book[o].children, i, path + {o}, open + {o});
      AliasBelowSound(cli, recorded, book[o].children, i, path + {o});
      AliasFinished(book, recorded, AliasBelow(recorded, book[o].children, i, path + {o}), rank, o, i, open);
    }
  }

  lemma AliasOpens(
    cli: Cli, book: Book, recorded: Book, rank: Output -> nat, o: Output, i: Invocation, path: set<Output>,
    open: set<Output>)
    requires Sound(cli, book) && Ranked(cli, book, rank) && Closed(book, open)
    requires AllAtLeast(path, rank, rank(o) + 1) && AllAtLeast(open, rank, rank(o) + 1)
    requires o in book && i !in book[o].invocations && recorded == Record(book, o, i)
    ensures o !in path && o !in open
    ensures Sound(cli, recorded) && Grown(book, recorded) && Ranked(cli, recorded, rank) && Closed(recorded, open + {o})
    ensures AllAtLeast(path + {o}, rank, rank(o)) && AllAtLeast(open + {o}, rank, rank(o))
    ensures Among(book[o].children, recorded[o].children)
  {
    RecordSound(cli, book, o, i);
    RecordOpens(cli, book, o, i, open);
    RankedBefore(cli, recorded, book, rank);
  }

  lemma AliasFinished(
    book: Book, recorded: Book, r: Book, rank: Output -> nat, o: Output, i: Invocation, open: set<Output>)
    requires o in book && o !in open && Closed(book, open)
    requires recorded == Record(book, o, i) && Grown(book, recorded) && Grown(recorded, r)
    requires BelowCloses(recorded, r, rank, o, book[o].children, i, open + {o})
    ensures AliasCloses(book, r, rank, o, open)
  {
    GrownTwice(book, recorded, r, {});
    PageCloses(book, recorded, r, o, i, open);
  }

  ghost predicate BelowCloses(
    book: Book, r: Book, rank: Output -> nat, o: Output, children: seq<Child>, i: Invocation, open: set<Output>) {
    Closed(r, open) && Untouched(book, r, rank, rank(o)) && ContinuedAll(r, i, children)
  }

  lemma {:induction false} AliasBelowClosed(
    cli: Cli, book: Book, rank: Output -> nat, o: Output, children: seq<Child>, i: Invocation, path: set<Output>,
    open: set<Output>)
    requires Sound(cli, book) && Ranked(cli, book, rank) && Closed(book, open)
    requires o in book && Among(children, book[o].children)
    requires AllAtLeast(path, rank, rank(o)) && AllAtLeast(open, rank, rank(o))
    ensures BelowCloses(book, AliasBelow(book, children, i, path), rank, o, children, i, open)
    decreases |book.Keys - path|, 1, |children|
  {
    if children != [] {
      var n := |children| - 1;
      AmongFront(children, book[o].children);
      AliasBelowSound(cli, book, children[..n], i, path);
      AliasBelowClosed(cli, book, rank, o, children[..n], i, path, open);
      var front := AliasBelow(book, children[..n], i, path);
      ChildBelow(cli, book, front, rank, o, children[n], path, open);
      AliasClosed(cli, front, rank, children[n].output, Extended(i, children[n].name), path, open);
      AliasSound(cli, front, children[n].output, Extended(i, children[n].name), path);
      var r := AddAlias(front, children[n].output, Extended(i, children[n].name), path);
      OneMoreContinued(book, front, r, rank, o, children, i, open);
    }
  }

  lemma ChildBelow(
    cli: Cli, book: Book, front: Book, rank: Output -> nat, o: Output, c: Child, path: set<Output>, open: set<Output>)
    requires Sound(cli, book) && Ranked(cli, book, rank) && Grown(book, front) && front.Keys == book.Keys
    requires o in book && c in book[o].children
    requires AllAtLeast(path, rank, rank(o)) && AllAtLeast(open, rank, rank(o))
    ensures c.output in front && rank(c.output) < rank(o) && Ranked(cli, front, rank)
    ensures AllAtLeast(path, rank, rank(c.output) + 1) && AllAtLeast(open, rank, rank(c.output) + 1)
  {
    assert PageSound(cli, book, o);
    assert ChildSound(cli, book, o, book[o].args, c);
    assert Edge(cli, book, o, c.name) == Some(c.output);
    RankedBefore(cli, front, book, rank);
  }

  lemma OneMoreContinued(
    book: Book, front: Book, r: Book, rank: Output -> nat, o: Output, children: seq<Child>, i: Invocation,
    open: set<Output>)
    requires children != []
    requires var c := children[|children| - 1];
             && rank(c.output) < rank(o) && AliasCloses(front, r, rank, c.output, open)
             && c.output in r && Extended(i, c.name) in r[c.output].invocations
    requires BelowCloses(book, front, rank, o, children[..|children| - 1], i, open) && Grown(front, r)
    ensures BelowCloses(book, r, rank, o, children, i, open)
  {
    var n := |children| - 1;
    ContinuedStays(front, r, i, children[..n]);
    assert children == children[..n] + [children[n]];
  }

  // ---------------------------------------------------------------- visits

  /** Everything on the path ranks above the text that the call prints. */
  predicate PathAbove(cli: Cli, rank: Output -> nat, a: seq<Word>, p: set<Output>) {
    cli.help(a).Some? ==> AllAtLeast(p, rank, rank(cli.help(a).value) + 1)
  }

  /** The pages of the path recorded nothing meanwhile. */
  predicate PathWaits(b: Book, r: Book, p: set<Output>) {
    forall q :: q in p && q in b ==> q in r && r[q].invocations == b[q].invocations
  }

  ghost predicate VisitEnds(cli: Cli, rank: Output -> nat, b: Book, a: seq<Word>, p: set<Output>, r: Visited) {
    Sound(cli, b) && Closed(b, p) && PathAbove(cli, rank, a, p) && r.Visited? && Ranked(cli, r.book, rank) ==>
      Closed(r.book, p) && PathWaits(b, r.book, p)
  }

  ghost predicate VisitCloses(cli: Cli, rank: Output -> nat, b: Book, a: seq<Word>, p: set<Output>, r: Visited) {
    (Sound(cli, b) ==> VisitKept(cli, b, a, r)) && VisitEnds(cli, rank, b, a, p, r)
  }

  ghost predicate CommandsEnd(cli: Cli, rank: Output -> nat, b: Book, o: Output, p: set<Output>, r: Visited) {
    && Sound(cli, b) && Closed(b, p) && o in b && o in p && AllAtLeast(p, rank, rank(o))
    && r.Visited? && Ranked(cli, r.book, rank) ==>
      Closed(r.book, p) && PathWaits(b, r.book, p)
  }

  ghost predicate CommandsClose(cli: Cli, rank: Output -> nat, b: Book, o: Output, n: nat, p: set<Output>, r: Visited) {
    && (Sound(cli, b) && o in b && n <= |cli.commands(o)| ==> CommandsKept(cli, b, o, n, r))
    && CommandsEnd(cli, rank, b, o, p, r)
  }

  lemma AliasRuleCloses(cli: Cli, rank: Output -> nat, b: Book, a: seq<Word>, p: set<Output>, o: Output)
    requires cli.help(a) == Some(o) && o in b
    ensures VisitCloses(cli, rank, b, a, p, Visited(AddAlias(b, o, Spelled(a), p), o))
  {
    var r := AddAlias(b, o, Spelled(a), p);
    if Sound(cli, b) {
      AliasSound(cli, b, o, Spelled(a), p);
    }
    if Sound(cli, b) && Closed(b, p) && PathAbove(cli, rank, a, p) && Ranked(cli, r, rank) {
      RankedBefore(cli, b, r, rank);
      AliasClosed(cli, b, rank, o, Spelled(a), p, p);
    }
  }

  lemma NewPageOpen(cli: Cli, b: Book, a: seq<Word>, o: Output, p: set<Output>)
    requires Sound(cli, b) && Closed(b, p) && o !in b && cli.help(a) == Some(o)
    ensures Closed(NewPage(b, a, o), p + {o})
  {
    var r := NewPage(b, a, o);
    NewPageSound(cli, b, a, o);
    forall q | q in r && q !in p + {o} ensures ClosedPage(r, q) {
      ClosedPageStays(b, r, q);
    }
  }

  /** A finished page holds its own call only, and each child recorded that call's continuation. */
  lemma FinishedPageCloses(cli: Cli, after: Book, a: seq<Word>, o: Output, p: set<Output>)
    requires Closed(after, p + {o}) && o in after && PageSound(cli, after, o)
    requires after[o].args == a && after[o].invocations == [Spelled(a)]
    ensures Closed(after, p)
  {
    forall c | c in after[o].children ensures Continued(after, Spelled(a), c) {
      assert ChildSound(cli, after, o, a, c);
      SpelledSnoc(a, c.name);
    }
    assert ClosedPage(after, o);
  }

  lemma PageRuleCloses(cli: Cli, rank: Output -> nat, b: Book, a: seq<Word>, p: set<Output>, o: Output, after: Book)
    requires cli.help(a) == Some(o) && o !in b
    requires CommandsClose(cli, rank, NewPage(b, a, o), o, |cli.commands(o)|, p + {o}, Visited(after, o))
    ensures VisitCloses(cli, rank, b, a, p, Visited(after, o))
  {
    var started := NewPage(b, a, o);
    if Sound(cli, b) {
      NewPageSound(cli, b, a, o);
      PageKept(cli, b, a, o, Visited(after, o));
    }
    if Sound(cli, b) && Closed(b, p) && PathAbove(cli, rank, a, p) && Ranked(cli, after, rank) {
      NewPageOpen(cli, b, a, o, p);
      assert PathWaits(started, after, p + {o});
      assert PathWaits(b, after, p);
      FinishedPageCloses(cli, after, a, o, p);
    }
  }

  lemma AdoptCloses(b: Book, o: Output, name: Word, child: Output, p: set<Output>)
    requires Closed(b, p) && o in p && o in b
    ensures Closed(Adopt(b, o, name, child), p)
  {
    var r := Adopt(b, o, name, child);
    forall q | q in r && q !in p ensures ClosedPage(r, q) {
      assert ClosedPage(b, q);
      forall i | i in r[q].invocations ensures ContinuedAll(r, i, r[q].children) {
        assert ContinuedAll(b, i, b[q].children);
        forall c | c in r[q].children ensures Continued(r, i, c) {
          assert Continued(b, i, c);
        }
      }
    }
  }

  lemma NextCallBelow(cli: Cli, rank: Output -> nat, b: Book, before: Book, o: Output, n: nat, p: set<Output>)
    requires o in b && n < |cli.commands(o)| && GrownBut(b, before, {o})
    requires Ranked(cli, before, rank) && AllAtLeast(p, rank, rank(o))
    ensures PathAbove(cli, rank, NextCall(cli, b, o, n), p)
  {
    var name := cli.commands(o)[n];
    assert Edge(cli, before, o, name) == cli.help(NextCall(cli, b, o, n));
  }

  lemma CommandRuleCloses(
    cli: Cli, rank: Output -> nat, b: Book, o: Output, n: nat, p: set<Output>, before: Book, after: Book, child: Output)
    requires o in b && n < |cli.commands(o)| && o in before && o in after
    requires CommandsClose(cli, rank, b, o, n, p, Visited(before, o))
    requires VisitCloses(cli, rank, before, NextCall(cli, b, o, n), p, Visited(after, child))
    ensures CommandsClose(cli, rank, b, o, n + 1, p, Visited(Adopt(after, o, cli.commands(o)[n], child), o))
  {
    if Sound(cli, b) {
      CommandAdopted(cli, b, Visited(before, o), Visited(after, child), o, n);
      CommandEnds(cli, rank, b, o, n, p, before, after, child);
    }
  }

  lemma CommandEnds(
    cli: Cli, rank: Output -> nat, b: Book, o: Output, n: nat, p: set<Output>, before: Book, after: Book, child: Output)
    requires Sound(cli, b) && Sound(cli, before)
    requires o in b && n < |cli.commands(o)| && GrownBut(b, before, {o}) && Grown(before, after)
    requires CommandsEnd(cli, rank, b, o, p, Visited(before, o))
    requires VisitEnds(cli, rank, before, NextCall(cli, b, o, n), p, Visited(after, child))
    ensures CommandsEnd(cli, rank, b, o, p, Visited(Adopt(after, o, cli.commands(o)[n], child), o))
  {
    var r := Adopt(after, o, cli.commands(o)[n], child);
    if Closed(b, p) && o in p && AllAtLeast(p, rank, rank(o)) && Ranked(cli, r, rank) {
      RanksOnTheWay(cli, rank, b, o, n, p, before, after, r);
      ClosedAtLast(b, before, after, o, cli.commands(o)[n], child, p);
    }
  }

  lemma RanksOnTheWay(
    cli: Cli, rank: Output -> nat, b: Book, o: Output, n: nat, p: set<Output>, before: Book, after: Book, r: Book)
    requires o in b && n < |cli.commands(o)| && GrownBut(b, before, {o}) && Grown(before, after)
    requires SameCalls(after, r) && Ranked(cli, r, rank) && AllAtLeast(p, rank, rank(o))
    ensures Ranked(cli, before, rank) && Ranked(cli, after, rank)
    ensures PathAbove(cli, rank, NextCall(cli, b, o, n), p)
  {
    RankedBefore(cli, after, r, rank);
    RankedBefore(cli, before, after, rank);
    NextCallBelow(cli, rank, b, before, o, n, p);
  }

  lemma ClosedAtLast(b: Book, before: Book, after: Book, o: Output, name: Word, child: Output, p: set<Output>)
    requires PathWaits(b, before, p) && PathWaits(before, after, p) && Closed(after, p) && o in p && o in after
    ensures Closed(Adopt(after, o, name, child), p) && PathWaits(b, Adopt(after, o, name, child), p)
  {
    AdoptCloses(after, o, name, child, p);
  }

  /** On a page graph without a cycle, a visit leaves no page outside the path open. */
  lemma VisitClosed(cli: Cli, rank: Output -> nat, book: Book, args: seq<Word>, path: set<Output>)
    requires Finite(cli) && Sound(cli, book) && Closed(book, path) && PathAbove(cli, rank, args, path)
    ensures var r := Visit(cli, book, args, path);
            r.Visited? && Ranked(cli, r.book, rank) ==> Closed(r.book, path)
  {
    var visit: OfVisit := (b, a, p, r) => VisitCloses(cli, rank, b, a, p, r);
    var commands: OfCommands := (b, o, n: nat, p, r) => CommandsClose(cli, rank, b, o, n, p, r);
    forall b, a, p, o | cli.help(a) == Some(o) && o in b
      ensures visit(b, a, p, Visited(AddAlias(b, o, Spelled(a), p), o))
    {
      AliasRuleCloses(cli, rank, b, a, p, o);
    }
    forall b, a, p, o, after |
      && cli.help(a) == Some(o) && o !in b
      && commands(NewPage(b, a, o), o, |cli.commands(o)|, p + {o}, Visited(after, o)) && o in after
      ensures visit(b, a, p, Visited(after, o))
    {
      PageRuleCloses(cli, rank, b, a, p, o, after);
    }
    forall b, o, n: nat, p, before, call, after, child |
      && o in b && n < |cli.commands(o)| && call == NextCall(cli, b, o, n)
      && o in before && o in after
      && commands(b, o, n, p, Visited(before, o)) && visit(before, call, p, Visited(after, child))
      ensures commands(b, o, n + 1, p, Visited(Adopt(after, o, cli.commands(o)[n], child), o))
    {
      CommandRuleCloses(cli, rank, b, o, n, p, before, after, child);
    }
    VisitInduction(cli, visit, commands, book, args, path);
  }
}
