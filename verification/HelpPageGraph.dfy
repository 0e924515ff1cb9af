/** What the collected help pages are: their graph, and the invocations recorded in it. */
module HelpPageGraph {
  import opened Outcomes
  import opened Sorting
  import opened HelpPages

  // ---------------------------------------------------------------- what is kept

  /** Pages stay, keep their arguments and children, and only gain invocations at the end. */
  predicate GrownBut(book: Book, more: Book, except: set<Output>) {
    && book.Keys <= more.Keys
    && forall p :: p in book ==>
         && more[p].args == book[p].args
         && book[p].invocations <= more[p].invocations
         && (p !in except ==> more[p].children == book[p].children)
  }

  predicate Grown(book: Book, more: Book) {
    GrownBut(book, more, {})
  }

  lemma GrownTwice(x: Book, y: Book, z: Book, except: set<Output>)
    requires GrownBut(x, y, except) && GrownBut(y, z, except)
    ensures GrownBut(x, z, except)
  {
    forall p | p in x ensures x[p].invocations <= z[p].invocations {
      assert x[p].invocations <= y[p].invocations && y[p].invocations <= z[p].invocations;
    }
  }

  predicate DistinctNames(children: seq<Child>) {
    forall i, j :: 0 <= i < j < |children| ==> children[i].name != children[j].name
  }

  /** A child is a listed command, and its page shows what that command prints and records the call. */
  predicate ChildSound(cli: Cli, book: Book, p: Output, args: seq<Word>, c: Child) {
    && c.name in cli.commands(p)
    && cli.help(args + [c.name]) == Some(c.output)
    && c.output in book
    && Spelled(args + [c.name]) in book[c.output].invocations
  }

  /** A page shows what its arguments print, and holds each invocation and each child name once. */
  ghost predicate PageSound(cli: Cli, book: Book, p: Output)
    requires p in book
  {
    && cli.help(book[p].args) == Some(p)
    && Spelled(book[p].args) in book[p].invocations
    && NoDuplicates(book[p].invocations)
    && DistinctNames(book[p].children)
    && forall c :: c in book[p].children ==> ChildSound(cli, book, p, book[p].args, c)
  }

  ghost predicate Sound(cli: Cli, book: Book) {
    forall p :: p in book ==> PageSound(cli, book, p)
  }

  lemma PageStaysSound(cli: Cli, book: Book, more: Book, p: Output)
    requires p in book && PageSound(cli, book, p) && Grown(book, more)
    requires NoDuplicates(more[p].invocations)
    ensures PageSound(cli, more, p)
  {
    forall c | c in book[p].children ensures ChildSound(cli, more, p, book[p].args, c) {
      assert ChildSound(cli, book, p, book[p].args, c);
    }
  }

  lemma RecordSound(cli: Cli, book: Book, o: Output, i: Invocation)
    requires Sound(cli, book) && o in book && i !in book[o].invocations
    ensures Sound(cli, Record(book, o, i)) && Grown(book, Record(book, o, i))
  {
    var r := Record(book, o, i);
    RecordGrows(book, o, i);
    forall p | p in r ensures PageSound(cli, r, p) {
      assert PageSound(cli, book, p);
      PageStaysSound(cli, book, r, p);
    }
  }

  lemma RecordGrows(book: Book, o: Output, i: Invocation)
    requires o in book && i !in book[o].invocations
    ensures Grown(book, Record(book, o, i))
    ensures forall p :: p in book && NoDuplicates(book[p].invocations) ==>
              NoDuplicates(Record(book, o, i)[p].invocations)
  {
  }

  lemma {:induction false} AliasSound(cli: Cli, book: Book, o: Output, i: Invocation, path: set<Output>)
    requires Sound(cli, book)
    ensures Sound(cli, AddAlias(book, o, i, path)) && Grown(book, AddAlias(book, o, i, path))
    ensures o in book ==> i in AddAlias(book, o, i, path)[o].invocations
    decreases |book.Keys - path|, 0, 0
  {
    if o in book && i !in book[o].invocations {
      var recorded := Record(book, o, i);
      RecordSound(cli, book, o, i);
      if o !in path {
        SmallerRest(book.Keys, path, o);
        AliasBelowSound(cli, recorded, book[o].children, i, path + {o});
        RecordedStays(book, recorded, AliasBelow(recorded, book[o].children, i, path + {o}), o, i);
      }
    }
  }

  lemma RecordedStays(book: Book, recorded: Book, r: Book, o: Output, i: Invocation)
    requires o in book && recorded == Record(book, o, i) && Grown(book, recorded) && Grown(recorded, r)
    ensures Grown(book, r) && i in r[o].invocations
  {
    GrownTwice(book, recorded, r, {});
    assert i in recorded[o].invocations;
  }

  lemma {:induction false} AliasBelowSound(cli: Cli, book: Book, children: seq<Child>, i: Invocation, path: set<Output>)
    requires Sound(cli, book)
    ensures Sound(cli, AliasBelow(book, children, i, path)) && Grown(book, AliasBelow(book, children, i, path))
    decreases |book.Keys - path|, 1, |children|
  {
    if children != [] {
      var n := |children| - 1;
      var front := AliasBelow(book, children[..n], i, path);
      AliasBelowSound(cli, book, children[..n], i, path);
      AliasSound(cli, front, children[n].output, Extended(i, children[n].name), path);
      GrownTwice(book, front, AliasBelow(book, children, i, path), {});
    }
  }

  lemma {:induction false} SetChildMeaning(children: seq<Child>, name: Word, o: Output)
    requires DistinctNames(children)
    ensures DistinctNames(SetChild(children, name, o))
    ensures forall c :: c in SetChild(children, name, o) <==> c == Child(name, o) || (c in children && c.name != name)
  {
    if children != [] && children[0].name != name {
      var rest := SetChild(children[1..], name, o);
      SetChildMeaning(children[1..], name, o);
      assert children == [children[0]] + children[1..];
      forall j | 0 <= j < |rest| ensures rest[j].name != children[0].name {
        assert rest[j] in rest;
      }
    } else if children != [] {
      assert children == [children[0]] + children[1..];
    }
  }

  lemma AdoptSound(cli: Cli, book: Book, o: Output, name: Word, child: Output)
    requires Sound(cli, book) && o in book
    requires ChildSound(cli, book, o, book[o].args, Child(name, child))
    ensures Sound(cli, Adopt(book, o, name, child)) && GrownBut(book, Adopt(book, o, name, child), {o})
  {
    forall p | p in Adopt(book, o, name, child) ensures PageSound(cli, Adopt(book, o, name, child), p) {
      AdoptedPageSound(cli, book, o, name, child, p);
    }
  }

  lemma AdoptedPageSound(cli: Cli, book: Book, o: Output, name: Word, child: Output, p: Output)
    requires p in book && PageSound(cli, book, p) && o in book && PageSound(cli, book, o)
    requires ChildSound(cli, book, o, book[o].args, Child(name, child))
    ensures PageSound(cli, Adopt(book, o, name, child), p)
  {
    var r := Adopt(book, o, name, child);
    if p == o {
      AdopterSound(cli, book, r, o, name, child);
    } else {
      ChildrenStaySound(cli, book, r, p, book[p].args, book[p].children);
    }
  }

  lemma ChildrenStaySound(cli: Cli, book: Book, more: Book, p: Output, args: seq<Word>, children: seq<Child>)
    requires forall c :: c in children ==> ChildSound(cli, book, p, args, c)
    requires book.Keys <= more.Keys && forall q :: q in book ==> more[q].invocations == book[q].invocations
    ensures forall c :: c in children ==> ChildSound(cli, more, p, args, c)
  {
    forall c | c in children ensures ChildSound(cli, more, p, args, c) {
      assert ChildSound(cli, book, p, args, c);
    }
  }

  lemma AdopterSound(cli: Cli, book: Book, r: Book, o: Output, name: Word, child: Output)
    requires o in book && PageSound(cli, book, o)
    requires ChildSound(cli, book, o, book[o].args, Child(name, child))
    requires r.Keys == book.Keys && forall q :: q in book ==> r[q].invocations == book[q].invocations
    requires r[o].args == book[o].args && r[o].children == SetChild(book[o].children, name, child)
    ensures PageSound(cli, r, o)
  {
    SetChildMeaning(book[o].children, name, child);
    ChildrenStaySound(cli, book, r, o, book[o].args, book[o].children + [Child(name, child)]);
    forall c | c in r[o].children ensures ChildSound(cli, r, o, r[o].args, c) {
      assert c in book[o].children + [Child(name, child)];
    }
  }

  lemma NewPageSound(cli: Cli, book: Book, args: seq<Word>, o: Output)
    requires Sound(cli, book) && o !in book && cli.help(args) == Some(o)
    ensures Sound(cli, NewPage(book, args, o)) && Grown(book, NewPage(book, args, o))
  {
    var r := NewPage(book, args, o);
    forall p | p in r ensures PageSound(cli, r, p) {
      if p != o {
        assert PageSound(cli, book, p);
        PageStaysSound(cli, book, r, p);
      }
    }
  }

  /** The first `n` commands of a page have children. */
  predicate HasChildren(cli: Cli, book: Book, o: Output, n: nat)
    requires o in book && n <= |cli.commands(o)|
  {
    forall k :: 0 <= k < n ==> HasChild(book[o].children, cli.commands(o)[k])
  }

  predicate HasChild(children: seq<Child>, name: Word) {
    ChildOf(children, name).Some?
  }

  /** `children.get(name)`. */
  function ChildOf(children: seq<Child>, name: Word): Option<Output> {
    if children == [] then None
    else if children[0].name == name then Some(children[0].output)
    else ChildOf(children[1..], name)
  }

  lemma {:induction false} ChildOfIn(children: seq<Child>, name: Word)
    ensures ChildOf(children, name).Some? ==> Child(name, ChildOf(children, name).value) in children
  {
    if children != [] && children[0].name != name {
      ChildOfIn(children[1..], name);
    }
  }

  lemma {:induction false} ChildOfSetChild(children: seq<Child>, name: Word, o: Output, other: Word)
    ensures ChildOf(SetChild(children, name, o), other) ==
            if other == name then Some(o) else ChildOf(children, other)
  {
    if children != [] && children[0].name != name {
      ChildOfSetChild(children[1..], name, o, other);
    }
  }

  // ---------------------------------------------------------------- induction over visits

  /** A property of a visit: the book before, the arguments, the pages on the path, and the outcome. */
  type OfVisit = (Book, seq<Word>, set<Output>, Visited) -> bool

  /**
   A property of the first commands of a page: the book with the page, its text, their number, the
   path, the outcome.
   */
  type OfCommands = (Book, Output, nat, set<Output>, Visited) -> bool

  ghost predicate RejectRule(visit: OfVisit, commands: OfCommands) {
    && (forall b, a, p :: visit(b, a, p, Rejected))
    && (forall b, o, n, p :: commands(b, o, n, p, Rejected))
  }

  ghost predicate AliasRule(cli: Cli, visit: OfVisit) {
    forall b, a, p, o :: cli.help(a) == Some(o) && o in b ==>
      visit(b, a, p, Visited(AddAlias(b, o, Spelled(a), p), o))
  }

  ghost predicate PageRule(cli: Cli, visit: OfVisit, commands: OfCommands) {
    forall b, a, p, o, after ::
      && cli.help(a) == Some(o) && o !in b
      && commands(NewPage(b, a, o), o, |cli.commands(o)|, p + {o}, Visited(after, o)) && o in after
      ==> visit(b, a, p, Visited(after, o))
  }

  ghost predicate NoCommandsRule(commands: OfCommands) {
    forall b, o, p :: o in b ==> commands(b, o, 0, p, Visited(b, o))
  }

  function NextCall(cli: Cli, book: Book, o: Output, n: nat): seq<Word>
    requires o in book && n < |cli.commands(o)|
  {
    book[o].args + [cli.commands(o)[n]]
  }

  ghost predicate CommandRule(cli: Cli, visit: OfVisit, commands: OfCommands) {
    forall b, o, n: nat, p, before, call, after, child ::
      && o in b && n < |cli.commands(o)| && call == NextCall(cli, b, o, n)
      && o in before && o in after
      && commands(b, o, n, p, Visited(before, o)) && visit(before, call, p, Visited(after, child))
      ==> commands(b, o, n + 1, p, Visited(Adopt(after, o, cli.commands(o)[n], child), o))
  }

  /** What the rules carry from each step to the next holds of every visit. */
  lemma {:induction false} VisitInduction(
    cli: Cli, visit: OfVisit, commands: OfCommands, book: Book, args: seq<Word>, path: set<Output>)
    requires Finite(cli) && RejectRule(visit, commands) && AliasRule(cli, visit)
    requires PageRule(cli, visit, commands) && NoCommandsRule(commands) && CommandRule(cli, visit, commands)
    ensures visit(book, args, path, Visit(cli, book, args, path))
    decreases Unseen(cli, book), 0, 0
  {
    if cli.help(args).Some? && cli.help(args).value !in book {
      var o := cli.help(args).value;
      NewPageSeen(cli, book, args, o);
      CommandsInduction(cli, visit, commands, NewPage(book, args, o), o, |cli.commands(o)|, path + {o});
    }
  }

  lemma {:induction false} CommandsInduction(
    cli: Cli, visit: OfVisit, commands: OfCommands, book: Book, o: Output, n: nat, path: set<Output>)
    requires Finite(cli) && RejectRule(visit, commands) && AliasRule(cli, visit)
    requires PageRule(cli, visit, commands) && NoCommandsRule(commands) && CommandRule(cli, visit, commands)
    requires o in book && n <= |cli.commands(o)|
    ensures commands(book, o, n, path, VisitCommands(cli, book, book[o].args, o, n, path))
    decreases Unseen(cli, book), 1, n
  {
    if n > 0 {
      CommandsInduction(cli, visit, commands, book, o, n - 1, path);
      var front := VisitCommands(cli, book, book[o].args, o, n - 1, path);
      if front.Visited? {
        FewerUnseen(cli, book, front.book);
        VisitInduction(cli, visit, commands, front.book, NextCall(cli, book, o, n - 1), path);
      }
    }
  }

  /** What a visit keeps and adds: its own call is on the page that shows its text. */
  ghost predicate VisitKept(cli: Cli, book: Book, args: seq<Word>, r: Visited) {
    r.Visited? ==>
      && Sound(cli, r.book) && Grown(book, r.book)
      && cli.help(args) == Some(r.output)
      && r.output in r.book
      && Spelled(args) in r.book[r.output].invocations
  }

  /** What the first `n` commands of a page keep and add. */
  ghost predicate CommandsKept(cli: Cli, book: Book, o: Output, n: nat, r: Visited)
    requires n <= |cli.commands(o)|
  {
    r.Visited? ==>
      && o in r.book
      && Sound(cli, r.book) && GrownBut(book, r.book, {o})
      && HasChildren(cli, r.book, o, n)
  }

  ghost function KeptByVisits(cli: Cli): OfVisit {
    (b, a, p, r) => Sound(cli, b) ==> VisitKept(cli, b, a, r)
  }

  ghost function KeptByCommands(cli: Cli): OfCommands {
    (b, o, n: nat, p, r) => Sound(cli, b) && o in b && n <= |cli.commands(o)| ==> CommandsKept(cli, b, o, n, r)
  }

  lemma AliasKeeps(cli: Cli)
    ensures AliasRule(cli, KeptByVisits(cli))
  {
    forall b, a, p, o | cli.help(a) == Some(o) && o in b
      ensures KeptByVisits(cli)(b, a, p, Visited(AddAlias(b, o, Spelled(a), p), o))
    {
      if Sound(cli, b) {
        AliasSound(cli, b, o, Spelled(a), p);
      }
    }
  }

  lemma PageKeeps(cli: Cli)
    ensures PageRule(cli, KeptByVisits(cli), KeptByCommands(cli))
  {
    forall b, a, p, o, after |
      && cli.help(a) == Some(o) && o !in b
      && KeptByCommands(cli)(NewPage(b, a, o), o, |cli.commands(o)|, p + {o}, Visited(after, o)) && o in after
      ensures KeptByVisits(cli)(b, a, p, Visited(after, o))
    {
      if Sound(cli, b) {
        NewPageSound(cli, b, a, o);
        PageKept(cli, b, a, o, Visited(after, o));
      }
    }
  }

  lemma CommandKeeps(cli: Cli)
    ensures CommandRule(cli, KeptByVisits(cli), KeptByCommands(cli))
  {
    forall b, o, n: nat, p, before, call, after, child |
      && o in b && n < |cli.commands(o)| && call == NextCall(cli, b, o, n)
      && o in before && o in after
      && KeptByCommands(cli)(b, o, n, p, Visited(before, o)) &&
           KeptByVisits(cli)(before, call, p, Visited(after, child))
      ensures KeptByCommands(cli)(b, o, n + 1, p, Visited(Adopt(after, o, cli.commands(o)[n], child), o))
    {
      if Sound(cli, b) {
        CommandAdopted(cli, b, Visited(before, o), Visited(after, child), o, n);
      }
    }
  }

  lemma VisitSound(cli: Cli, book: Book, args: seq<Word>, path: set<Output>)
    requires Finite(cli) && Sound(cli, book)
    ensures VisitKept(cli, book, args, Visit(cli, book, args, path))
  {
    AliasKeeps(cli);
    PageKeeps(cli);
    CommandKeeps(cli);
    VisitInduction(cli, KeptByVisits(cli), KeptByCommands(cli), book, args, path);
  }

  lemma PageKept(cli: Cli, book: Book, args: seq<Word>, o: Output, r: Visited)
    requires o !in book && cli.help(args) == Some(o) && Grown(book, NewPage(book, args, o))
    requires CommandsKept(cli, NewPage(book, args, o), o, |cli.commands(o)|, r) && (r.Visited? ==> r.output == o)
    ensures VisitKept(cli, book, args, r)
  {
    if r.Visited? {
      var started := NewPage(book, args, o);
      GrownFromNew(book, started, r.book, o);
      assert started[o].invocations[0] == Spelled(args);
    }
  }

  lemma GrownFromNew(book: Book, started: Book, more: Book, o: Output)
    requires o !in book && Grown(book, started) && GrownBut(started, more, {o})
    ensures Grown(book, more)
  {
    forall p | p in book ensures book[p].invocations <= more[p].invocations {
      assert book[p].invocations <= started[p].invocations && started[p].invocations <= more[p].invocations;
    }
  }

  lemma CommandAdopted(cli: Cli, book: Book, front: Visited, visit: Visited, o: Output, n: nat)
    requires o in book && n < |cli.commands(o)|
    requires front.Visited? && CommandsKept(cli, book, o, n, front)
    requires visit.Visited? && VisitKept(cli, front.book, NextCall(cli, book, o, n), visit)
    ensures o in visit.book
    ensures CommandsKept(cli, book, o, n + 1, Visited(Adopt(visit.book, o, cli.commands(o)[n], visit.output), o))
  {
    AdoptSound(cli, visit.book, o, cli.commands(o)[n], visit.output);
    OneMoreChild(cli, book, front.book, visit.book, o, n, visit.output);
  }

  lemma OneMoreChild(cli: Cli, book: Book, before: Book, after: Book, o: Output, n: nat, child: Output)
    requires o in book && n < |cli.commands(o)|
    requires GrownBut(book, before, {o}) && Grown(before, after)
    requires HasChildren(cli, before, o, n)
    ensures var adopted := Adopt(after, o, cli.commands(o)[n], child);
            GrownBut(book, adopted, {o}) && HasChildren(cli, adopted, o, n + 1)
  {
    var name := cli.commands(o)[n];
    var adopted := Adopt(after, o, name, child);
    GrownTwice(book, before, after, {o});
    forall k | 0 <= k < n + 1 ensures HasChild(adopted[o].children, cli.commands(o)[k]) {
      ChildOfSetChild(after[o].children, name, child, cli.commands(o)[k]);
      assert k < n ==> HasChild(before[o].children, cli.commands(o)[k]);
    }
  }

  // ---------------------------------------------------------------- every command was visited

  /** Every page that is not being visited has all its children. */
  ghost predicate Complete(cli: Cli, book: Book, path: set<Output>) {
    forall p :: p in book && p !in path ==> HasChildren(cli, book, p, |cli.commands(p)|)
  }

  lemma CompleteGrows(cli: Cli, book: Book, more: Book, path: set<Output>, except: set<Output>)
    requires Complete(cli, book, path) && GrownBut(book, more, except) && except <= path && more.Keys == book.Keys
    ensures Complete(cli, more, path)
  {
  }

  lemma NewPageIncomplete(cli: Cli, book: Book, args: seq<Word>, o: Output, path: set<Output>)
    requires Complete(cli, book, path) && o !in book
    ensures Complete(cli, NewPage(book, args, o), path + {o})
  {
    var r := NewPage(book, args, o);
    forall p | p in r && p !in path + {o} ensures HasChildren(cli, r, p, |cli.commands(p)|) {
      assert HasChildren(cli, book, p, |cli.commands(p)|);
    }
  }

  lemma PageCompleted(cli: Cli, book: Book, o: Output, path: set<Output>)
    requires Complete(cli, book, path + {o}) && o in book && HasChildren(cli, book, o, |cli.commands(o)|)
    ensures Complete(cli, book, path)
  {
  }

  lemma CompleteAdopts(cli: Cli, book: Book, o: Output, name: Word, child: Output, path: set<Output>)
    requires Complete(cli, book, path) && o in path && o in book
    ensures Complete(cli, Adopt(book, o, name, child), path)
  {
    CompleteGrows(cli, book, Adopt(book, o, name, child), path, {o});
  }

  ghost predicate VisitDone(cli: Cli, b: Book, a: seq<Word>, p: set<Output>, r: Visited) {
    Sound(cli, b) && Complete(cli, b, p) && r.Visited? ==> VisitKept(cli, b, a, r) && Complete(cli, r.book, p)
  }

  ghost predicate CommandsDone(cli: Cli, b: Book, o: Output, n: nat, p: set<Output>, r: Visited) {
    Sound(cli, b) && Complete(cli, b, p) && o in b && o in p && n <= |cli.commands(o)| && r.Visited? ==>
      CommandsKept(cli, b, o, n, r) && Complete(cli, r.book, p)
  }

  lemma AliasDone(cli: Cli, b: Book, a: seq<Word>, p: set<Output>, o: Output)
    requires cli.help(a) == Some(o) && o in b
    ensures VisitDone(cli, b, a, p, Visited(AddAlias(b, o, Spelled(a), p), o))
  {
    if Sound(cli, b) && Complete(cli, b, p) {
      AliasSound(cli, b, o, Spelled(a), p);
      CompleteGrows(cli, b, AddAlias(b, o, Spelled(a), p), p, {});
    }
  }

  lemma PageDone(cli: Cli, b: Book, a: seq<Word>, p: set<Output>, o: Output, after: Book)
    requires cli.help(a) == Some(o) && o !in b
    requires CommandsDone(cli, NewPage(b, a, o), o, |cli.commands(o)|, p + {o}, Visited(after, o))
    ensures VisitDone(cli, b, a, p, Visited(after, o))
  {
    if Sound(cli, b) && Complete(cli, b, p) {
      NewPageSound(cli, b, a, o);
      NewPageIncomplete(cli, b, a, o, p);
      PageKept(cli, b, a, o, Visited(after, o));
      PageCompleted(cli, after, o, p);
    }
  }

  lemma CommandDone(cli: Cli, b: Book, o: Output, n: nat, p: set<Output>, before: Book, after: Book, child: Output)
    requires o in b && n < |cli.commands(o)| && o in before && o in after
    requires CommandsDone(cli, b, o, n, p, Visited(before, o))
    requires VisitDone(cli, before, NextCall(cli, b, o, n), p, Visited(after, child))
    ensures CommandsDone(cli, b, o, n + 1, p, Visited(Adopt(after, o, cli.commands(o)[n], child), o))
  {
    if Sound(cli, b) && Complete(cli, b, p) && o in p {
      var front := Visited(before, o);
      assert CommandsKept(cli, b, o, n, front) && Complete(cli, before, p);
      CommandAdopted(cli, b, front, Visited(after, child), o, n);
      CompleteAdopts(cli, after, o, cli.commands(o)[n], child, p);
    }
  }

  /** A visit leaves only the pages on its path without all their children. */
  lemma VisitCompletes(cli: Cli, book: Book, args: seq<Word>, path: set<Output>)
    requires Finite(cli) && Sound(cli, book) && Complete(cli, book, path)
    ensures var r := Visit(cli, book, args, path);
            r.Visited? ==> Complete(cli, r.book, path)
  {
    var visit: OfVisit := (b, a, p, r) => VisitDone(cli, b, a, p, r);
    var commands: OfCommands := (b, o, n: nat, p, r) => CommandsDone(cli, b, o, n, p, r);
    forall b, a, p, o | cli.help(a) == Some(o) && o in b
      ensures visit(b, a, p, Visited(AddAlias(b, o, Spelled(a), p), o))
    {
      AliasDone(cli, b, a, p, o);
    }
    forall b, a, p, o, after |
      && cli.help(a) == Some(o) && o !in b
      && commands(NewPage(b, a, o), o, |cli.commands(o)|, p + {o}, Visited(after, o)) && o in after
      ensures visit(b, a, p, Visited(after, o))
    {
      PageDone(cli, b, a, p, o, after);
    }
    forall b, o, n: nat, p, before, call, after, child |
      && o in b && n < |cli.commands(o)| && call == NextCall(cli, b, o, n)
      && o in before && o in after
      && commands(b, o, n, p, Visited(before, o)) && visit(before, call, p, Visited(after, child))
      ensures commands(b, o, n + 1, p, Visited(Adopt(after, o, cli.commands(o)[n], child), o))
    {
      CommandDone(cli, b, o, n, p, before, after, child);
    }
    VisitInduction(cli, visit, commands, book, args, path);
  }
}
