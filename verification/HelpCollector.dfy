/** The collector of help pages: page objects that point to each other and are updated in place. */
module HelpCollector {
  import opened Outcomes
  import opened Sorting
  import opened HelpPages

  /** A page's reference to the page of one of its commands. */
  datatype Link = Link(name: Word, page: HelpPage)

  class HelpPage {
    const output: Output
    ghost const args: seq<Word>
    var invocations: seq<Invocation>
    var children: seq<Link>

    constructor (output: Output, args: seq<Word>)
      ensures this.output == output && this.args == args
      ensures invocations == [Spelled(args)] && children == []
    {
      this.output := output;
      this.args := args;
      invocations := [Spelled(args)];
      children := [];
    }

    ghost function View(): Page
      reads this
    {
      Page(args, invocations, Views(children))
    }
  }

  function Views(links: seq<Link>): (children: seq<Child>)
    ensures |children| == |links|
  {
    seq(|links|, i requires 0 <= i < |links| => Child(links[i].name, links[i].page.output))
  }

  /** `children.set(name, page)`: a known name keeps its place. */
  function SetLink(links: seq<Link>, name: Word, page: HelpPage): seq<Link> {
    if links == [] then [Link(name, page)]
    else if links[0].name == name then [Link(name, page)] + links[1..]
    else [links[0]] + SetLink(links[1..], name, page)
  }

  lemma {:induction false} SetLinkView(links: seq<Link>, name: Word, page: HelpPage)
    ensures Views(SetLink(links, name, page)) == SetChild(Views(links), name, page.output)
    ensures forall l :: l in SetLink(links, name, page) ==> l in links || l.page == page
  {
    if links != [] {
      assert Views(links)[1..] == Views(links[1..]);
      if links[0].name != name {
        SetLinkView(links[1..], name, page);
        assert Views(SetLink(links, name, page)) == [Views(links)[0]] + Views(SetLink(links[1..], name, page));
      }
    }
  }

  predicate WordAtMost(a: Word, b: Word) {
    CodeUnitsAtMost(a.text, b.text)
  }

  /** The calls at the top, for the profiles in code unit order. */
  function TopLevelHelpArgs(profiles: seq<Word>): seq<seq<Word>> {
    TopArgs(StableSort(profiles, WordAtMost))
  }

  /** Both forms of every profile are called, and the explicit form of no other word. */
  lemma EveryProfileCalled(profiles: seq<Word>, p: Word)
    ensures p in profiles ==> [p] in TopLevelHelpArgs(profiles)
    ensures p in profiles <==> [Word("--profile"), p] in TopLevelHelpArgs(profiles)
  {
    var sorted := StableSort(profiles, WordAtMost);
    SortPermutes(profiles, WordAtMost);
    assert p in sorted <==> p in multiset(sorted);
    assert p in profiles <==> p in multiset(profiles);
    FormsCalled(sorted, p);
  }

  lemma {:induction false} FormsCalled(sorted: seq<Word>, p: Word)
    ensures p in sorted ==> [p] in TopArgs(sorted)
    ensures p in sorted <==> [Word("--profile"), p] in TopArgs(sorted)
  {
    if sorted != [] {
      var front, last := sorted[..|sorted| - 1], sorted[|sorted| - 1];
      FormsCalled(front, p);
      assert sorted == front + [last];
      assert [Word("--profile"), last][1] == last && [Word("--profile"), p][1] == p;
    }
  }

  /** Once a command is rejected, the visit of its page is. */
  lemma {:induction false} RejectionStays(cli: Cli, book: Book, args: seq<Word>, o: Output, n: nat, path: set<Output>)
    requires Finite(cli) && o in book && n <= |cli.commands(o)|
    requires VisitCommands(cli, book, args, o, n, path).Rejected?
    ensures VisitCommands(cli, book, args, o, |cli.commands(o)|, path).Rejected?
    decreases |cli.commands(o)| - n
  {
    if n < |cli.commands(o)| {
      RejectionStays(cli, book, args, o, n + 1, path);
    }
  }

  lemma AliasBelowNext(book: Book, children: seq<Child>, n: nat, i: Invocation, path: set<Output>)
    requires n < |children|
    ensures AliasBelow(book, children[..n + 1], i, path) ==
            HelpPages.AddAlias(
              AliasBelow(book, children[..n], i, path), children[n].output, Extended(i, children[n].name), path)
  {
    assert children[..n + 1][..n] == children[..n];
  }

  lemma VisitSeen(cli: Cli, book: Book, args: seq<Word>, o: Output, path: set<Output>)
    requires Finite(cli) && cli.help(args) == Some(o) && o in book
    ensures Visit(cli, book, args, path) == Visited(HelpPages.AddAlias(book, o, Spelled(args), path), o)
  {
  }

  lemma VisitUnseen(cli: Cli, book: Book, args: seq<Word>, o: Output, path: set<Output>)
    requires Finite(cli) && cli.help(args) == Some(o) && o !in book
    ensures Visit(cli, book, args, path) ==
            VisitCommands(cli, NewPage(book, args, o), args, o, |cli.commands(o)|, path + {o})
  {
  }

  lemma CommandsNext(cli: Cli, book: Book, args: seq<Word>, o: Output, n: nat, path: set<Output>, before: Book)
    requires Finite(cli) && o in book && n < |cli.commands(o)|
    requires VisitCommands(cli, book, args, o, n, path) == Visited(before, o)
    ensures var name := cli.commands(o)[n];
            VisitCommands(cli, book, args, o, n + 1, path) ==
            match Visit(cli, before, args + [name], path)
            case Rejected => Rejected
            case Visited(after, child) => Visited(Adopt(after, o, name, child), o)
  {
  }

  /** Once a top call is rejected, the collection fails. */
  lemma {:induction false} FailureStays(cli: Cli, tops: seq<seq<Word>>, n: nat)
    requires Finite(cli) && n <= |tops|
    ensures Collect(cli, tops[..n]).Failed? ==> Collect(cli, tops).Failed?
    decreases |tops| - n
  {
    if n < |tops| {
      assert tops[..n + 1][..n] == tops[..n];
      FailureStays(cli, tops, n + 1);
    } else {
      assert tops[..n] == tops;
    }
  }

  /** The first `n` commands leave the book `now`. */
  ghost predicate After(cli: Cli, was: Book, args: seq<Word>, o: Output, n: nat, path: set<Output>, now: Book) {
    Finite(cli) && o in was && n <= |cli.commands(o)| && VisitCommands(cli, was, args, o, n, path) == Visited(now, o)
  }

  /** The texts of the pages on a path. */
  ghost function Shown(path: set<HelpPage>): set<Output> {
    set p | p in path :: p.output
  }

  lemma ShownMore(path: set<HelpPage>, page: HelpPage)
    ensures Shown(path + {page}) == Shown(path) + {page.output}
    ensures Shown({}) == {}
  {
  }

  class Collector {
    var pages: map<Output, HelpPage>
    ghost var Repr: set<HelpPage>

    constructor ()
      ensures Valid() && Contents() == map[] && Repr == {}
    {
      pages := map[];
      Repr := {};
    }

    ghost predicate PageValid(o: Output)
      reads this, Repr
      requires o in pages
    {
      && pages[o] in Repr && pages[o].output == o
      && forall l :: l in pages[o].children ==> Known(l.page)
    }

    predicate Known(page: HelpPage)
      reads this
    {
      page.output in pages && pages[page.output] == page
    }

    /** Pages stand under their own text and point to known pages. */
    ghost predicate Valid()
      reads this, Repr
    {
      forall o :: o in pages ==> PageValid(o)
    }

    /** What the pages say, by their text. */
    ghost function Contents(): (book: Book)
      reads this, Repr
      requires Valid()
      ensures book.Keys == pages.Keys
    {
      assert forall o :: o in pages ==> PageValid(o);
      map o | o in pages :: pages[o].View()
    }

    predicate AllKnown(path: set<HelpPage>)
      reads this
    {
      forall p :: p in path ==> Known(p)
    }

    method RecordOn(page: HelpPage, i: Invocation)
      requires Valid() && Known(page)
      modifies page
      ensures Valid() && pages == old(pages) && Repr == old(Repr)
      ensures Contents() == Record(old(Contents()), page.output, i)
      ensures page.children == old(page.children)
    {
      assert forall o :: o in pages ==> PageValid(o);
      page.invocations := page.invocations + [i];
      assert forall o :: o in pages ==> PageValid(o);
    }

    method AddAlias(page: HelpPage, i: Invocation, path: set<HelpPage>)
      requires Valid() && Known(page) && AllKnown(path)
      modifies Repr
      ensures Valid() && pages == old(pages) && Repr == old(Repr)
      ensures Contents() == HelpPages.AddAlias(old(Contents()), page.output, i, Shown(path))
      decreases |pages.Keys - Shown(path)|, 0
    {
      if i in page.invocations {
        return;
      }
      RecordOn(page, i);
      if page in path {
        return;
      }
      ShownMore(path, page);
      SmallerRest(pages.Keys, Shown(path), page.output);
      AddBelow(page, i, path + {page});
    }

    method AddBelow(page: HelpPage, i: Invocation, path: set<HelpPage>)
      requires Valid() && Known(page) && AllKnown(path)
      modifies Repr
      ensures Valid() && pages == old(pages) && Repr == old(Repr)
      ensures Contents() == AliasBelow(old(Contents()), Views(old(page.children)), i, Shown(path))
      decreases |pages.Keys - Shown(path)|, 1
    {
      var links := page.children;
      assert PageValid(page.output);
      for n := 0 to |links|
        invariant Valid() && pages == old(pages) && Repr == old(Repr)
        invariant forall l :: l in links ==> Known(l.page)
        invariant Contents() == AliasBelow(old(Contents()), Views(links)[..n], i, Shown(path))
      {
        assert links[n] in links;
        AliasBelowNext(old(Contents()), Views(links), n, i, Shown(path));
        AddAlias(links[n].page, Extended(i, links[n].name), path);
      }
      assert Views(links)[..|links|] == Views(links);
    }

    /** A new page for a text that no page shows. */
    method AddPage(o: Output, args: seq<Word>) returns (page: HelpPage)
      requires Valid() && o !in pages
      modifies this
      ensures Valid() && fresh(page) && pages == old(pages)[o := page] && Repr == old(Repr) + {page} && page.output == o
      ensures Contents() == NewPage(old(Contents()), args, o)
    {
      assert forall p :: p in pages ==> PageValid(p);
      page := new HelpPage(o, args);
      pages := pages[o := page];
      Repr := Repr + {page};
      assert forall p :: p in pages ==> PageValid(p);
    }

    method AdoptChild(page: HelpPage, name: Word, child: HelpPage)
      requires Valid() && Known(page) && Known(child)
      modifies page
      ensures Valid() && pages == old(pages) && Repr == old(Repr)
      ensures Contents() == Adopt(old(Contents()), page.output, name, child.output)
    {
      assert PageValid(page.output);
      SetLinkView(page.children, name, child);
      var links := SetLink(page.children, name, child);
      assert forall l :: l in links ==> Known(l.page);
      Relink(page, links);
    }

    method Relink(page: HelpPage, links: seq<Link>)
      requires Valid() && Known(page) && forall l :: l in links ==> Known(l.page)
      modifies page
      ensures Valid() && pages == old(pages) && Repr == old(Repr)
      ensures var was := old(Contents())[page.output];
              Contents() == old(Contents())[page.output := was.(children := Views(links))]
    {
      assert forall p :: p in pages ==> PageValid(p);
      page.children := links;
      assert forall p :: p in pages ==> PageValid(p);
    }

    method Visit(cli: Cli, args: seq<Word>, path: set<HelpPage>)
      returns (page: Option<HelpPage>)
      requires Finite(cli) && Valid() && AllKnown(path)
      modifies this, Repr
      ensures Valid() && fresh(Repr - old(Repr)) && AllKnown(path)
      ensures Answers(page, HelpPages.Visit(cli, old(Contents()), args, Shown(path)))
      decreases Unseen(cli, Contents()), 0
    {
      var printed := cli.help(args);
      if printed.None? {
        return None;
      }
      var o := printed.value;
      if o in pages {
        VisitSeen(cli, old(Contents()), args, o, Shown(path));
        assert PageValid(o);
        AddAlias(pages[o], Spelled(args), path);
        return Some(pages[o]);
      }
      NewPageSeen(cli, Contents(), args, o);
      VisitUnseen(cli, old(Contents()), args, o, Shown(path));
      page := VisitPage(cli, args, o, path);
    }

    method VisitPage(cli: Cli, args: seq<Word>, o: Output, path: set<HelpPage>)
      returns (page: Option<HelpPage>)
      requires Finite(cli) && Valid() && AllKnown(path) && o !in pages
      modifies this, Repr
      ensures Valid() && fresh(Repr - old(Repr)) && AllKnown(path)
      ensures page.Some? ==> Known(page.value) && page.value.output == o
      ensures Completes(page.Some?, cli, NewPage(old(Contents()), args, o), args, o, Shown(path) + {o})
      decreases Unseen(cli, NewPage(Contents(), args, o)), 4
    {
      var added := AddPage(o, args);
      ShownMore(path, added);
      assert AllKnown(path + {added});
      var complete := VisitCommands(cli, args, added, path + {added});
      page := if complete then Some(added) else None;
    }

    /** The result and the pages are those of the visit. */
    ghost predicate Answers(page: Option<HelpPage>, r: Visited)
      reads this, Repr
      requires Valid()
    {
      match r
      case Rejected => page.None?
      case Visited(book, o) => Contents() == book && page.Some? && Known(page.value) && page.value.output == o
    }

    /** All commands succeeded and left these pages, or one was rejected. */
    ghost predicate Completes(complete: bool, cli: Cli, was: Book, args: seq<Word>, o: Output, shown: set<Output>)
      reads this, Repr
      requires Valid()
    {
      if complete then After(cli, was, args, o, |cli.commands(o)|, shown, Contents()) else
        Finite(cli) && o in was && HelpPages.VisitCommands(cli, was, args, o, |cli.commands(o)|, shown).Rejected?
    }

    method VisitCommands(cli: Cli, args: seq<Word>, page: HelpPage, path: set<HelpPage>)
      returns (complete: bool)
      requires Finite(cli) && Valid() && AllKnown(path) && page in path
      modifies this, Repr
      ensures Valid() && fresh(Repr - old(Repr)) && AllKnown(path) && Known(page)
      ensures Completes(complete, cli, old(Contents()), args, page.output, Shown(path))
      decreases Unseen(cli, Contents()), 3
    {
      ghost var was := Contents();
      complete := true;
      var n := 0;
      while n < |cli.commands(page.output)| && complete
        invariant n <= |cli.commands(page.output)|
        invariant Valid() && fresh(Repr - old(Repr)) && AllKnown(path) && Known(page)
        invariant if complete then After(cli, was, args, page.output, n, Shown(path), Contents())
                  else Completes(false, cli, was, args, page.output, Shown(path))
        decreases |cli.commands(page.output)| - n
      {
        complete := VisitNext(cli, args, page, n, path, was);
        n := n + 1;
      }
    }

    method VisitNext(
      cli: Cli, args: seq<Word>, page: HelpPage, n: nat, path: set<HelpPage>, ghost was: Book)
      returns (visited: bool)
      requires Finite(cli) && Valid() && AllKnown(path) && page in path && n < |cli.commands(page.output)|
      requires After(cli, was, args, page.output, n, Shown(path), Contents()) && was.Keys <= pages.Keys
      modifies this, Repr
      ensures Valid() && fresh(Repr - old(Repr)) && AllKnown(path) && Known(page)
      ensures visited ==> After(cli, was, args, page.output, n + 1, Shown(path), Contents())
      ensures !visited ==> Completes(false, cli, was, args, page.output, Shown(path))
      decreases Unseen(cli, was), 2
    {
      FewerUnseen(cli, was, Contents());
      CommandsNext(cli, was, args, page.output, n, Shown(path), Contents());
      visited := VisitCommand(cli, args, page, n, path);
      if !visited {
        RejectionStays(cli, was, args, page.output, n + 1, Shown(path));
      }
    }

    method VisitCommand(cli: Cli, args: seq<Word>, page: HelpPage, n: nat, path: set<HelpPage>)
      returns (visited: bool)
      requires Finite(cli) && Valid() && AllKnown(path) && page in path && n < |cli.commands(page.output)|
      modifies this, Repr
      ensures Valid() && fresh(Repr - old(Repr)) && AllKnown(path) && Known(page)
      ensures var name := cli.commands(page.output)[n];
              match HelpPages.Visit(cli, old(Contents()), args + [name], Shown(path))
              case Rejected => !visited
              case Visited(book, child) => visited && Contents() == Adopt(book, page.output, name, child)
      decreases Unseen(cli, Contents()), 1
    {
      var name := cli.commands(page.output)[n];
      var child := Visit(cli, args + [name], path);
      if child.None? {
        return false;
      }
      AdoptChild(page, name, child.value);
      return true;
    }

    /** Collect launcher, plugin and profile help into the pages. */
    method CollectCliHelp(cli: Cli, profiles: seq<Word>) returns (complete: bool)
      requires Finite(cli) && Valid() && Contents() == map[]
      modifies this, Repr
      ensures Valid()
      ensures match Collect(cli, TopLevelHelpArgs(profiles))
              case Failed => !complete
              case Collected(book) => complete && Contents() == book
    {
      var tops := TopLevelHelpArgs(profiles);
      var n := 0;
      complete := true;
      while n < |tops| && complete
        invariant n <= |tops| && Valid() && fresh(Repr - old(Repr))
        invariant Collects(complete, cli, tops[..n])
        decreases |tops| - n
      {
        assert tops[..n + 1][..n] == tops[..n];
        complete := VisitTop(cli, tops[..n + 1]);
        n := n + 1;
      }
      FailureStays(cli, tops, n);
      assert tops[..|tops|] == tops;
    }

    /** The calls so far all succeeded and left these pages, or one was rejected. */
    ghost predicate Collects(complete: bool, cli: Cli, tops: seq<seq<Word>>)
      reads this, Repr
      requires Finite(cli) && Valid()
    {
      Collect(cli, tops) == if complete then Collected(Contents()) else Failed
    }

    method VisitTop(cli: Cli, tops: seq<seq<Word>>) returns (complete: bool)
      requires Finite(cli) && Valid() && tops != [] && Collects(true, cli, tops[..|tops| - 1])
      modifies this, Repr
      ensures Valid() && fresh(Repr - old(Repr)) && Collects(complete, cli, tops)
    {
      var top: set<HelpPage> := {};
      assert Shown(top) == {};
      var page := Visit(cli, tops[|tops| - 1], top);
      complete := page.Some?;
    }
  }
}
