/**
 The help pages of a command line: every command is found by reading the help of the commands
 above it, and calls that print the same text share one page.

 Reading help is a function of the arguments. The page graph may be cyclic, because a page can
 list a command that prints the page itself or one above it.
 */
module HelpPages {
  import opened Outcomes
  import opened Sorting
  import opened Text

  /** One word of a command line. */
  datatype Word = Word(text: string)

  /** The complete help text of a call. */
  datatype Output = Output(text: string)

  /** A call as it is written in the reference: the words behind `dsh`, joined by blanks. */
  datatype Invocation = Invocation(text: string)

  /**
   A command line: `help` is the text that a call prints, absent when the call fails or prints
   nothing, and `commands` are the names listed in a text. `outputs` bounds what can be printed.
   */
  datatype Cli = Cli(help: seq<Word> -> Option<Output>, commands: Output -> seq<Word>, outputs: set<Output>)

  /** The command line prints one of finitely many texts. */
  ghost predicate Finite(cli: Cli) {
    forall a :: cli.help(a).Some? ==> cli.help(a).value in cli.outputs
  }

  datatype Child = Child(name: Word, output: Output)

  /** A page: the arguments that were read first, every invocation recorded, and the pages below. */
  datatype Page = Page(args: seq<Word>, invocations: seq<Invocation>, children: seq<Child>)

  /** The pages by their text. */
  type Book = map<Output, Page>

  function Extended(i: Invocation, name: Word): Invocation {
    Invocation(i.text + " " + name.text)
  }

  function Texts(words: seq<Word>): seq<string> {
    if words == [] then [] else Texts(words[..|words| - 1]) + [words[|words| - 1].text]
  }

  function Spelled(args: seq<Word>): Invocation {
    Invocation(Join(["dsh"] + Texts(args), ' '))
  }

  /** The calls read at the top: the launcher, the plugin command, and both forms of every profile. */
  function TopArgs(sorted: seq<Word>): (calls: seq<seq<Word>>) {
    if sorted == [] then [[], [Word("plugin")]]
    else
      var last := sorted[|sorted| - 1];
      TopArgs(sorted[..|sorted| - 1]) + [[last], [Word("--profile"), last]]
  }

  /** The launcher, then the plugin command, then the short and the explicit form of each profile in turn. */
  lemma {:induction false} TopCalls(sorted: seq<Word>, i: nat)
    ensures |TopArgs(sorted)| == 2 + 2 * |sorted|
    ensures TopArgs(sorted)[0] == [] && TopArgs(sorted)[1] == [Word("plugin")]
    ensures i < |sorted| ==>
              TopArgs(sorted)[2 + 2 * i] == [sorted[i]] && TopArgs(sorted)[3 + 2 * i] == [Word("--profile"), sorted[i]]
  {
    if sorted != [] {
      TopCalls(sorted[..|sorted| - 1], i);
    }
  }

  // ---------------------------------------------------------------- recording an alias

  lemma SmallerRest(keys: set<Output>, path: set<Output>, o: Output)
    requires o in keys && o !in path
    ensures |keys - (path + {o})| < |keys - path|
  {
    assert keys - path == (keys - (path + {o})) + {o};
  }

  function Record(book: Book, o: Output, i: Invocation): (r: Book)
    requires o in book
    ensures r.Keys == book.Keys
  {
    book[o := book[o].(invocations := book[o].invocations + [i])]
  }

  /** Record an invocation on a page and, unless the page is on the path, its continuations below. */
  function AddAlias(book: Book, o: Output, i: Invocation, path: set<Output>): (r: Book)
    ensures r.Keys == book.Keys
    decreases |book.Keys - path|, 0, 0
  {
    if o !in book || i in book[o].invocations then book
    else if o in path then Record(book, o, i)
    else
      SmallerRest(book.Keys, path, o);
      AliasBelow(Record(book, o, i), book[o].children, i, path + {o})
  }

  function AliasBelow(book: Book, children: seq<Child>, i: Invocation, path: set<Output>): (r: Book)
    ensures r.Keys == book.Keys
    decreases |book.Keys - path|, 1, |children|
  {
    if children == [] then book
    else
      var n := |children| - 1;
      AddAlias(AliasBelow(book, children[..n], i, path), children[n].output, Extended(i, children[n].name), path)
  }

  // ---------------------------------------------------------------- visiting

  /** `children.set(name, page)`: a known name keeps its place. */
  function SetChild(children: seq<Child>, name: Word, o: Output): seq<Child> {
    if children == [] then [Child(name, o)]
    else if children[0].name == name then [Child(name, o)] + children[1..]
    else [children[0]] + SetChild(children[1..], name, o)
  }

  function Adopt(book: Book, o: Output, name: Word, child: Output): Book
    requires o in book
  {
    book[o := book[o].(children := SetChild(book[o].children, name, child))]
  }

  function NewPage(book: Book, args: seq<Word>, o: Output): Book {
    book[o := Page(args, [Spelled(args)], [])]
  }

  datatype Visited = Rejected | Visited(book: Book, output: Output)

  /** Texts that no page shows yet. */
  function Unseen(cli: Cli, book: Book): nat {
    |cli.outputs - book.Keys|
  }

  lemma FewerUnseen(cli: Cli, book: Book, more: Book)
    requires book.Keys <= more.Keys
    ensures Unseen(cli, more) <= Unseen(cli, book)
  {
    SubsetSize(cli.outputs - more.Keys, cli.outputs - book.Keys);
  }

  lemma NewPageSeen(cli: Cli, book: Book, args: seq<Word>, o: Output)
    requires o in cli.outputs && o !in book
    ensures Unseen(cli, NewPage(book, args, o)) < Unseen(cli, book)
  {
    assert cli.outputs - book.Keys == (cli.outputs - NewPage(book, args, o).Keys) + {o};
  }

  /** Read one call; a text seen before makes it an alias, a new text gets a page and its commands visited. */
  ghost function Visit(cli: Cli, book: Book, args: seq<Word>, path: set<Output>): (r: Visited)
    requires Finite(cli)
    ensures r.Visited? ==> book.Keys <= r.book.Keys && r.output in r.book
    decreases Unseen(cli, book), 0, 0
  {
    if cli.help(args).None? then Rejected
    else
      var o := cli.help(args).value;
      if o in book then Visited(AddAlias(book, o, Spelled(args), path), o)
      else
        NewPageSeen(cli, book, args, o);
        VisitCommands(cli, NewPage(book, args, o), args, o, |cli.commands(o)|, path + {o})
  }

  /** The first `n` commands of a new page. */
  ghost function VisitCommands(
    cli: Cli, book: Book, args: seq<Word>, o: Output, n: nat, path: set<Output>): (r: Visited)
    requires Finite(cli) && o in book && n <= |cli.commands(o)|
    ensures r.Visited? ==> book.Keys <= r.book.Keys && r.output == o
    decreases Unseen(cli, book), 1, n
  {
    if n == 0 then Visited(book, o)
    else
      match VisitCommands(cli, book, args, o, n - 1, path)
      case Rejected => Rejected
      case Visited(before, _) =>
        FewerUnseen(cli, book, before);
        match Visit(cli, before, args + [cli.commands(o)[n - 1]], path)
        case Rejected => Rejected
        case Visited(after, child) => Visited(Adopt(after, o, cli.commands(o)[n - 1], child), o)
  }

  datatype Collection = Failed | Collected(book: Book)

  ghost function Collect(cli: Cli, tops: seq<seq<Word>>): Collection
    requires Finite(cli)
  {
    if tops == [] then Collected(map[])
    else
      match Collect(cli, tops[..|tops| - 1])
      case Failed => Failed
      case Collected(book) =>
        match Visit(cli, book, tops[|tops| - 1], {})
        case Rejected => Failed
        case Visited(after, _) => Collected(after)
  }
}
