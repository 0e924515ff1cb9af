/** Which invocations the collected help pages record: walks of the page graph. */
module HelpPageWalks {
  import opened Outcomes
  import opened Text
  import opened HelpPages
  import opened HelpPageGraph

  // ---------------------------------------------------------------- walks

  /** The page that a command listed on page `p` prints. */
  function Edge(cli: Cli, book: Book, p: Output, name: Word): Option<Output> {
    if p in book && name in cli.commands(p) then cli.help(book[p].args + [name]) else None
  }

  /** The page at the end of a sequence of commands. */
  function Follow(cli: Cli, book: Book, o: Output, names: seq<Word>): Option<Output> {
    if names == [] then Some(o)
    else
      match Follow(cli, book, o, names[..|names| - 1])
      case None => None
      case Some(p) => Edge(cli, book, p, names[|names| - 1])
  }

  ghost predicate WalkOf(
    cli: Cli, tops: seq<seq<Word>>, book: Book, i: Invocation, o: Output, t: seq<Word>, names: seq<Word>) {
    && t in tops && cli.help(t).Some?
    && Follow(cli, book, cli.help(t).value, names) == Some(o)
    && i == Spelled(t + names)
  }

  /** The invocation spells a walk of the page graph from a top call to the page. */
  ghost predicate Walked(cli: Cli, tops: seq<seq<Word>>, book: Book, i: Invocation, o: Output) {
    exists t, names :: WalkOf(cli, tops, book, i, o, t, names)
  }

  lemma {:induction false} JoinSnoc(pieces: seq<string>, last: string, c: char)
    requires pieces != []
    ensures Join(pieces + [last], c) == Join(pieces, c) + [c] + last
  {
    var longer := pieces + [last];
    assert longer[1..] == pieces[1..] + [last];
    if |pieces| == 1 {
      assert longer[1..] == [last];
    } else {
      JoinSnoc(pieces[1..], last, c);
    }
  }

  lemma SpelledSnoc(args: seq<Word>, name: Word)
    ensures Spelled(args + [name]) == Extended(Spelled(args), name)
  {
    assert (args + [name])[..|args|] == args;
    assert ["dsh"] + Texts(args + [name]) == (["dsh"] + Texts(args)) + [name.text];
    JoinSnoc(["dsh"] + Texts(args), name.text, ' ');
  }

  /** Pages stay and keep their arguments. */
  predicate SameCalls(book: Book, more: Book) {
    book.Keys <= more.Keys && forall p :: p in book ==> more[p].args == book[p].args
  }

  lemma {:induction false} FollowStays(cli: Cli, book: Book, more: Book, o: Output, names: seq<Word>)
    requires SameCalls(book, more)
    ensures Follow(cli, book, o, names).Some? ==> Follow(cli, more, o, names) == Follow(cli, book, o, names)
  {
    if names != [] {
      FollowStays(cli, book, more, o, names[..|names| - 1]);
    }
  }

  lemma WalkedStays(cli: Cli, tops: seq<seq<Word>>, book: Book, more: Book, i: Invocation, o: Output)
    requires SameCalls(book, more) && Walked(cli, tops, book, i, o)
    ensures Walked(cli, tops, more, i, o)
  {
    var t, names :| WalkOf(cli, tops, book, i, o, t, names);
    FollowStays(cli, book, more, cli.help(t).value, names);
    assert WalkOf(cli, tops, more, i, o, t, names);
  }

  lemma WalkedFurther(cli: Cli, tops: seq<seq<Word>>, book: Book, i: Invocation, p: Output, name: Word, o: Output)
    requires Walked(cli, tops, book, i, p) && Edge(cli, book, p, name) == Some(o)
    ensures Walked(cli, tops, book, Extended(i, name), o)
  {
    var t, names :| WalkOf(cli, tops, book, i, p, t, names);
    assert (names + [name])[..|names|] == names;
    assert t + (names + [name]) == (t + names) + [name];
    SpelledSnoc(t + names, name);
    assert WalkOf(cli, tops, book, Extended(i, name), o, t, names + [name]);
  }

  // ---------------------------------------------------------------- every recorded invocation is a walk

  ghost predicate PageWalked(cli: Cli, tops: seq<seq<Word>>, book: Book, o: Output)
    requires o in book
  {
    forall i :: i in book[o].invocations ==> Walked(cli, tops, book, i, o)
  }

  ghost predicate AllWalked(cli: Cli, tops: seq<seq<Word>>, book: Book) {
    forall o :: o in book ==> PageWalked(cli, tops, book, o)
  }

  lemma PageStaysWalked(cli: Cli, tops: seq<seq<Word>>, book: Book, more: Book, o: Output)
    requires SameCalls(book, more) && o in book && PageWalked(cli, tops, book, o)
    requires more[o].invocations == book[o].invocations
    ensures PageWalked(cli, tops, more, o)
  {
    forall i | i in more[o].invocations ensures Walked(cli, tops, more, i, o) {
      WalkedStays(cli, tops, book, more, i, o);
    }
  }

  lemma RecordWalked(cli: Cli, tops: seq<seq<Word>>, book: Book, o: Output, i: Invocation)
    requires AllWalked(cli, tops, book) && o in book && Walked(cli, tops, book, i, o)
    ensures AllWalked(cli, tops, Record(book, o, i)) && Walked(cli, tops, Record(book, o, i), i, o)
  {
    var r := Record(book, o, i);
    WalkedStays(cli, tops, book, r, i, o);
    forall p | p in r ensures PageWalked(cli, tops, r, p) {
      assert PageWalked(cli, tops, book, p);
      if p == o {
        forall j | j in r[o].invocations ensures Walked(cli, tops, r, j, o) {
          if j != i {
            WalkedStays(cli, tops, book, r, j, o);
          }
        }
      } else {
        PageStaysWalked(cli, tops, book, r, p);
      }
    }
  }

  lemma {:induction false} AliasWalked(
    cli: Cli, tops: seq<seq<Word>>, book: Book, o: Output, i: Invocation, path: set<Output>)
    requires Sound(cli, book) && AllWalked(cli, tops, book) && Walked(cli, tops, book, i, o)
    ensures AllWalked(cli, tops, AddAlias(book, o, i, path))
    decreases |book.Keys - path|, 0, 0
  {
    if o in book && i !in book[o].invocations {
      var recorded := Record(book, o, i);
      RecordWalked(cli, tops, book, o, i);
      if o !in path {
        RecordSound(cli, book, o, i);
        SmallerRest(book.Keys, path, o);
        AliasBelowWalked(cli, tops, recorded, o, book[o].children, i, path + {o});
      }
    }
  }

  predicate Among(children: seq<Child>, all: seq<Child>) {
    forall c :: c in children ==> c in all
  }

  lemma AmongFront(children: seq<Child>, all: seq<Child>)
    requires children != [] && Among(children, all)
    ensures Among(children[..|children| - 1], all) && children[|children| - 1] in all
  {
  }

  lemma {:induction false} AliasBelowWalked(
    cli: Cli, tops: seq<seq<Word>>, book: Book, o: Output, children: seq<Child>, i: Invocation, path: set<Output>)
    requires Sound(cli, book) && AllWalked(cli, tops, book)
    requires o in book && Walked(cli, tops, book, i, o) && Among(children, book[o].children)
    ensures AllWalked(cli, tops, AliasBelow(book, children, i, path))
    decreases |book.Keys - path|, 1, |children|
  {
    if children != [] {
      var n := |children| - 1;
      AmongFront(children, book[o].children);
      var front := AliasBelow(book, children[..n], i, path);
      AliasBelowSound(cli, book, children[..n], i, path);
      AliasBelowWalked(cli, tops, book, o, children[..n], i, path);
      ChildWalked(cli, tops, book, front, o, children[n], i);
      AliasWalked(cli, tops, front, children[n].output, Extended(i, children[n].name), path);
    }
  }

  lemma ChildWalked(cli: Cli, tops: seq<seq<Word>>, book: Book, more: Book, o: Output, c: Child, i: Invocation)
    requires Sound(cli, book) && Grown(book, more) && o in book && c in book[o].children &&
             Walked(cli, tops, book, i, o)
    ensures Walked(cli, tops, more, Extended(i, c.name), c.output)
  {
    assert PageSound(cli, book, o);
    assert ChildSound(cli, book, o, book[o].args, c);
    WalkedFurther(cli, tops, book, i, o, c.name, c.output);
    WalkedStays(cli, tops, book, more, Extended(i, c.name), c.output);
  }

  /** The call is a walk to the page that shows its text. */
  ghost predicate CallWalked(cli: Cli, tops: seq<seq<Word>>, book: Book, args: seq<Word>) {
    cli.help(args).Some? ==> Walked(cli, tops, book, Spelled(args), cli.help(args).value)
  }

  ghost predicate VisitWalked(cli: Cli, tops: seq<seq<Word>>, b: Book, a: seq<Word>, r: Visited) {
    Sound(cli, b) && AllWalked(cli, tops, b) && CallWalked(cli, tops, b, a) && r.Visited? ==>
      VisitKept(cli, b, a, r) && AllWalked(cli, tops, r.book)
  }

  ghost predicate CommandsWalked(cli: Cli, tops: seq<seq<Word>>, b: Book, o: Output, n: nat, r: Visited) {
    Sound(cli, b) && AllWalked(cli, tops, b) && o in b && n <= |cli.commands(o)| && r.Visited? ==>
      CommandsKept(cli, b, o, n, r) && AllWalked(cli, tops, r.book)
  }

  lemma AliasRuleWalked(cli: Cli, tops: seq<seq<Word>>, b: Book, a: seq<Word>, p: set<Output>, o: Output)
    requires cli.help(a) == Some(o) && o in b
    ensures VisitWalked(cli, tops, b, a, Visited(AddAlias(b, o, Spelled(a), p), o))
  {
    if Sound(cli, b) && AllWalked(cli, tops, b) && CallWalked(cli, tops, b, a) {
      AliasSound(cli, b, o, Spelled(a), p);
      AliasWalked(cli, tops, b, o, Spelled(a), p);
    }
  }

  lemma NewPageWalked(cli: Cli, tops: seq<seq<Word>>, b: Book, a: seq<Word>, o: Output)
    requires cli.help(a) == Some(o) && o !in b && AllWalked(cli, tops, b) && CallWalked(cli, tops, b, a)
    ensures AllWalked(cli, tops, NewPage(b, a, o))
  {
    var r := NewPage(b, a, o);
    WalkedStays(cli, tops, b, r, Spelled(a), o);
    forall p | p in r ensures PageWalked(cli, tops, r, p) {
      if p != o {
        PageStaysWalked(cli, tops, b, r, p);
      }
    }
  }

  lemma PageRuleWalked(cli: Cli, tops: seq<seq<Word>>, b: Book, a: seq<Word>, o: Output, after: Book)
    requires cli.help(a) == Some(o) && o !in b
    requires CommandsWalked(cli, tops, NewPage(b, a, o), o, |cli.commands(o)|, Visited(after, o))
    ensures VisitWalked(cli, tops, b, a, Visited(after, o))
  {
    if Sound(cli, b) && AllWalked(cli, tops, b) && CallWalked(cli, tops, b, a) {
      NewPageSound(cli, b, a, o);
      NewPageWalked(cli, tops, b, a, o);
      PageKept(cli, b, a, o, Visited(after, o));
    }
  }

  lemma NextCallWalked(cli: Cli, tops: seq<seq<Word>>, b: Book, before: Book, o: Output, n: nat)
    requires o in b && n < |cli.commands(o)| && GrownBut(b, before, {o})
    requires Sound(cli, before) && AllWalked(cli, tops, before)
    ensures CallWalked(cli, tops, before, NextCall(cli, b, o, n))
  {
    var name := cli.commands(o)[n];
    var call := NextCall(cli, b, o, n);
    assert PageSound(cli, before, o) && PageWalked(cli, tops, before, o);
    SpelledSnoc(b[o].args, name);
    if cli.help(call).Some? {
      WalkedFurther(cli, tops, before, Spelled(b[o].args), o, name, cli.help(call).value);
    }
  }

  lemma AdoptWalked(cli: Cli, tops: seq<seq<Word>>, b: Book, o: Output, name: Word, child: Output)
    requires AllWalked(cli, tops, b) && o in b
    ensures AllWalked(cli, tops, Adopt(b, o, name, child))
  {
    var r := Adopt(b, o, name, child);
    forall p | p in r ensures PageWalked(cli, tops, r, p) {
      PageStaysWalked(cli, tops, b, r, p);
    }
  }

  lemma CommandRuleWalked(
    cli: Cli, tops: seq<seq<Word>>, b: Book, o: Output, n: nat, before: Book, after: Book, child: Output)
    requires o in b && n < |cli.commands(o)| && o in before && o in after
    requires CommandsWalked(cli, tops, b, o, n, Visited(before, o))
    requires VisitWalked(cli, tops, before, NextCall(cli, b, o, n), Visited(after, child))
    ensures CommandsWalked(cli, tops, b, o, n + 1, Visited(Adopt(after, o, cli.commands(o)[n], child), o))
  {
    if Sound(cli, b) && AllWalked(cli, tops, b) {
      var front := Visited(before, o);
      assert CommandsKept(cli, b, o, n, front) && AllWalked(cli, tops, before);
      NextCallWalked(cli, tops, b, before, o, n);
      CommandAdopted(cli, b, front, Visited(after, child), o, n);
      AdoptWalked(cli, tops, after, o, cli.commands(o)[n], child);
    }
  }

  /** A visit whose own call is a walk records walks only. */
  lemma VisitRecordsWalks(cli: Cli, tops: seq<seq<Word>>, book: Book, args: seq<Word>, path: set<Output>)
    requires Finite(cli) && Sound(cli, book) && AllWalked(cli, tops, book) && CallWalked(cli, tops, book, args)
    ensures var r := Visit(cli, book, args, path);
            r.Visited? ==> AllWalked(cli, tops, r.book)
  {
    var visit: OfVisit := (b, a, p, r) => VisitWalked(cli, tops, b, a, r);
    var commands: OfCommands := (b, o, n: nat, p, r) => CommandsWalked(cli, tops, b, o, n, r);
    forall b, a, p, o | cli.help(a) == Some(o) && o in b
      ensures visit(b, a, p, Visited(AddAlias(b, o, Spelled(a), p), o))
    {
      AliasRuleWalked(cli, tops, b, a, p, o);
    }
    forall b, a, p, o, after |
      && cli.help(a) == Some(o) && o !in b
      && commands(NewPage(b, a, o), o, |cli.commands(o)|, p + {o}, Visited(after, o)) && o in after
      ensures visit(b, a, p, Visited(after, o))
    {
      PageRuleWalked(cli, tops, b, a, o, after);
    }
    forall b, o, n: nat, p, before, call, after, child |
      && o in b && n < |cli.commands(o)| && call == NextCall(cli, b, o, n)
      && o in before && o in after
      && commands(b, o, n, p, Visited(before, o)) && visit(before, call, p, Visited(after, child))
      ensures commands(b, o, n + 1, p, Visited(Adopt(after, o, cli.commands(o)[n], child), o))
    {
      CommandRuleWalked(cli, tops, b, o, n, before, after, child);
    }
    VisitInduction(cli, visit, commands, book, args, path);
  }
}
