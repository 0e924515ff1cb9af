/**
 Which invocations are recorded, on every page graph: recording follows the commands from a call and
 stops behind a page that it meets again, and before an invocation that was recorded already.
 */
module HelpPageRecords {
  import opened Outcomes
  import opened HelpPages
  import opened HelpPageGraph
  import opened HelpPageWalks
  import opened HelpPageReference

  // ---------------------------------------------------------------- spelling a walk

  /** The invocation with further words. */
  function Along(i: Invocation, names: seq<Word>): Invocation
    decreases |names|
  {
    if names == [] then i else Along(Extended(i, names[0]), names[1..])
  }

  /** Command names are listed without blanks, so an invocation tells its words. */
  ghost predicate BlankFree(cli: Cli) {
    forall o, name :: name in cli.commands(o) ==> ' ' !in name.text
  }

  lemma {:induction false} AlongStarts(i: Invocation, names: seq<Word>)
    ensures i.text <= Along(i, names).text
    ensures names != [] ==> |Along(i, names).text| > |i.text| && Along(i, names).text[|i.text|] == ' '
    decreases |names|
  {
    if names != [] {
      AlongStarts(Extended(i, names[0]), names[1..]);
    }
  }

  /** Behind different words, no further words give the same invocation. */
  lemma AlongDiffers(i: Invocation, x: Word, xs: seq<Word>, y: Word, ys: seq<Word>)
    requires ' ' !in x.text && ' ' !in y.text && x != y
    ensures Along(Extended(i, x), xs) != Along(Extended(i, y), ys)
  {
    if Along(Extended(i, x), xs) == Along(Extended(i, y), ys) {
      AlongStarts(Extended(i, x), xs);
      AlongStarts(Extended(i, y), ys);
      if |x.text| <= |y.text| {
        WordsTold(i, x, y, Along(Extended(i, x), xs).text, xs == []);
      } else {
        WordsTold(i, y, x, Along(Extended(i, y), ys).text, ys == []);
      }
    }
  }

  /** In one text the shorter of two words ends where the longer does. */
  lemma WordsTold(i: Invocation, x: Word, y: Word, text: string, last: bool)
    requires |x.text| <= |y.text| && ' ' !in y.text
    requires Extended(i, x).text <= text && Extended(i, y).text <= text
    requires if last then text == Extended(i, x).text
             else |text| > |Extended(i, x).text| && text[|Extended(i, x).text|] == ' '
    ensures x == y
  {
    var n := |i.text| + 1;
    var k: nat := |x.text|;
    if k < |y.text| {
      NoBlankInside(i, y, text, k);
    }
    assert text[n..n + |x.text|] == x.text && text[n..n + |y.text|] == y.text;
  }

  lemma NoBlankInside(i: Invocation, y: Word, text: string, k: nat)
    requires ' ' !in y.text && Extended(i, y).text <= text && k < |y.text|
    ensures |i.text| + 1 + k < |text| && text[|i.text| + 1 + k] != ' '
  {
    assert text[|i.text| + 1 + k] == y.text[k];
  }

  // ---------------------------------------------------------------- what a call adds

  /**
   `names` lead from page `o` to page `q` along the children of `graph`: over pages that are new to
   the path, up to the last, and only to invocations that `book` has not recorded.
   */
  ghost predicate Fresh(
    graph: Book, book: Book, o: Output, i: Invocation, path: set<Output>, names: seq<Word>, q: Output)
    decreases |names|
  {
    !Recorded(book, i, o) &&
    if names == [] then q == o
    else
      && o !in path && o in graph
      && exists c :: c in graph[o].children && c.name == names[0] &&
           Fresh(graph, book, c.output, Extended(i, c.name), path + {o}, names[1..], q)
  }

  /** The call `i` of page `o` adds the invocation `j` to page `q`. */
  ghost predicate Adds(graph: Book, book: Book, o: Output, i: Invocation, path: set<Output>, j: Invocation, q: Output) {
    exists names :: j == Along(i, names) && Fresh(graph, book, o, i, path, names, q)
  }

  ghost predicate AddsBelow(
    graph: Book, book: Book, children: seq<Child>, i: Invocation, path: set<Output>, j: Invocation, q: Output) {
    exists c :: c in children && Adds(graph, book, c.output, Extended(i, c.name), path, j, q)
  }

  /** Off the path, the second graph has the pages of the first, with the same children. */
  ghost predicate SameOff(graph: Book, more: Book, path: set<Output>) {
    forall p :: p in graph && p !in path ==>
      p in more && more[p].children == graph[p].children && forall c :: c in graph[p].children ==> c.output in graph
  }

  /** The books record the same invocations that begin like `i`. */
  ghost predicate SameBehind(book: Book, more: Book, i: Invocation) {
    forall names, q :: Recorded(book, Along(i, names), q) <==> Recorded(more, Along(i, names), q)
  }

  lemma SameBehindNext(book: Book, more: Book, i: Invocation, name: Word)
    requires SameBehind(book, more, i)
    ensures SameBehind(book, more, Extended(i, name))
  {
    forall names, q
      ensures Recorded(book, Along(Extended(i, name), names), q) <==> Recorded(more, Along(Extended(i, name), names), q)
    {
      assert ([name] + names)[1..] == names;
      assert Along(i, [name] + names) == Along(Extended(i, name), names);
    }
  }

  lemma {:induction false} FreshAlike(
    graph: Book, more: Book, book: Book, other: Book, o: Output, i: Invocation, path: set<Output>,
    names: seq<Word>, q: Output)
    requires o in graph && SameOff(graph, more, path) && SameBehind(book, other, i)
    ensures Fresh(graph, book, o, i, path, names, q) <==> Fresh(more, other, o, i, path, names, q)
    decreases |names|
  {
    assert Along(i, []) == i;
    if names != [] && o !in path {
      forall c | c in graph[o].children
        ensures Fresh(graph, book, c.output, Extended(i, c.name), path + {o}, names[1..], q) <==>
                Fresh(more, other, c.output, Extended(i, c.name), path + {o}, names[1..], q)
      {
        SameBehindNext(book, other, i, c.name);
        FreshAlike(graph, more, book, other, c.output, Extended(i, c.name), path + {o}, names[1..], q);
      }
    }
  }

  lemma AddsAlike(
    graph: Book, more: Book, book: Book, other: Book, o: Output, i: Invocation, path: set<Output>,
    j: Invocation, q: Output)
    requires o in graph && SameOff(graph, more, path) && SameBehind(book, other, i)
    ensures Adds(graph, book, o, i, path, j, q) <==> Adds(more, other, o, i, path, j, q)
  {
    forall names ensures Fresh(graph, book, o, i, path, names, q) <==> Fresh(more, other, o, i, path, names, q) {
      FreshAlike(graph, more, book, other, o, i, path, names, q);
    }
  }

  /** The call itself, and what it adds below. */
  lemma AddsUnfolds(graph: Book, book: Book, o: Output, i: Invocation, path: set<Output>, j: Invocation, q: Output)
    requires o in graph && o !in path && !Recorded(book, i, o)
    ensures Adds(graph, book, o, i, path, j, q) <==>
              (j == i && q == o) || AddsBelow(graph, book, graph[o].children, i, path + {o}, j, q)
  {
    if Adds(graph, book, o, i, path, j, q) {
      var names :| j == Along(i, names) && Fresh(graph, book, o, i, path, names, q);
      if names != [] {
        var c :| c in graph[o].children && c.name == names[0] &&
          Fresh(graph, book, c.output, Extended(i, c.name), path + {o}, names[1..], q);
        assert Adds(graph, book, c.output, Extended(i, c.name), path + {o}, j, q);
      }
    }
    if j == i && q == o {
      assert Along(i, []) == j && Fresh(graph, book, o, i, path, [], q);
    }
    if AddsBelow(graph, book, graph[o].children, i, path + {o}, j, q) {
      var c :| c in graph[o].children && Adds(graph, book, c.output, Extended(i, c.name), path + {o}, j, q);
      var names :| j == Along(Extended(i, c.name), names) &&
        Fresh(graph, book, c.output, Extended(i, c.name), path + {o}, names, q);
      assert ([c.name] + names)[1..] == names;
      assert Along(i, [c.name] + names) == j && Fresh(graph, book, o, i, path, [c.name] + names, q);
    }
  }

  // ---------------------------------------------------------------- recording an alias

  /** Exactly what the call adds is recorded in addition. */
  ghost predicate RecordsCall(graph: Book, book: Book, r: Book, o: Output, i: Invocation, path: set<Output>) {
    forall j, q :: Recorded(r, j, q) <==> Recorded(book, j, q) || Adds(graph, book, o, i, path, j, q)
  }

  ghost predicate RecordsBelow(
    graph: Book, book: Book, r: Book, children: seq<Child>, i: Invocation, path: set<Output>) {
    forall j, q :: Recorded(r, j, q) <==> Recorded(book, j, q) || AddsBelow(graph, book, children, i, path, j, q)
  }

  /** Children of a page: each command once, without blanks, and with a page. */
  ghost predicate Listed(book: Book, children: seq<Child>) {
    DistinctNames(children) && forall c :: c in children ==> c.output in book && ' ' !in c.name.text
  }

  lemma SoundLists(cli: Cli, book: Book, o: Output)
    requires Sound(cli, book) && BlankFree(cli) && o in book
    ensures Listed(book, book[o].children)
  {
    assert PageSound(cli, book, o);
    forall c | c in book[o].children ensures c.output in book && ' ' !in c.name.text {
      assert ChildSound(cli, book, o, book[o].args, c);
    }
  }

  lemma SoundIsSameOff(cli: Cli, book: Book, more: Book, path: set<Output>)
    requires Sound(cli, book) && book.Keys <= more.Keys
    requires forall p :: p in book && p !in path ==> more[p].children == book[p].children
    ensures SameOff(book, more, path)
  {
    forall p | p in book && p !in path ensures forall c :: c in book[p].children ==> c.output in book {
      assert PageSound(cli, book, p);
      forall c | c in book[p].children ensures c.output in book {
        assert ChildSound(cli, book, p, book[p].args, c);
      }
    }
  }

  /**
   On every page graph, cyclic or not, recording an alias records exactly the walks from it over
   pages that are new to the path, up to the last one, as far as they were not recorded.
   */
  lemma {:induction false} AliasRecords(cli: Cli, book: Book, o: Output, i: Invocation, path: set<Output>)
    requires Sound(cli, book) && BlankFree(cli) && o in book
    ensures RecordsCall(book, book, AddAlias(book, o, i, path), o, i, path)
    decreases |book.Keys - path|, 0, 0
  {
    if i in book[o].invocations {
      NothingAdded(book, o, i, path);
    } else if o in path {
      OnlyCallAdded(book, o, i, path);
    } else {
      var recorded := Record(book, o, i);
      RecordSound(cli, book, o, i);
      SmallerRest(book.Keys, path, o);
      SoundLists(cli, recorded, o);
      AliasBelowRecords(cli, recorded, book[o].children, i, path + {o});
      AliasUnfolds(cli, book, recorded, AliasBelow(recorded, book[o].children, i, path + {o}), o, i, path);
    }
  }

  lemma NothingAdded(book: Book, o: Output, i: Invocation, path: set<Output>)
    requires Recorded(book, i, o)
    ensures RecordsCall(book, book, book, o, i, path)
  {
  }

  lemma OnlyCallAdded(book: Book, o: Output, i: Invocation, path: set<Output>)
    requires o in book && i !in book[o].invocations && o in path
    ensures RecordsCall(book, book, Record(book, o, i), o, i, path)
  {
    forall j, q
      ensures Recorded(Record(book, o, i), j, q) <==> Recorded(book, j, q) || Adds(book, book, o, i, path, j, q)
    {
      if j == i && q == o {
        assert Along(i, []) == j && Fresh(book, book, o, i, path, [], q);
      }
    }
  }

  lemma RecordAdds(book: Book, o: Output, i: Invocation, name: Word)
    requires o in book
    ensures SameBehind(book, Record(book, o, i), Extended(i, name))
  {
    forall names, q
      ensures Recorded(book, Along(Extended(i, name), names), q) <==>
              Recorded(Record(book, o, i), Along(Extended(i, name), names), q)
    {
      AlongStarts(Extended(i, name), names);
    }
  }

  lemma AliasUnfolds(cli: Cli, book: Book, recorded: Book, r: Book, o: Output, i: Invocation, path: set<Output>)
    requires Sound(cli, book) && o in book && i !in book[o].invocations && o !in path
    requires recorded == Record(book, o, i) && RecordsBelow(recorded, recorded, r, book[o].children, i, path + {o})
    ensures RecordsCall(book, book, r, o, i, path)
  {
    SoundIsSameOff(cli, book, recorded, path + {o});
    forall j, q ensures Recorded(r, j, q) <==> Recorded(book, j, q) || Adds(book, book, o, i, path, j, q) {
      AddsUnfolds(book, book, o, i, path, j, q);
      forall c | c in book[o].children
        ensures Adds(recorded, recorded, c.output, Extended(i, c.name), path + {o}, j, q) <==>
                Adds(book, book, c.output, Extended(i, c.name), path + {o}, j, q)
      {
        assert PageSound(cli, book, o);
        assert ChildSound(cli, book, o, book[o].args, c);
        RecordAdds(book, o, i, c.name);
        AddsAlike(book, recorded, book, recorded, c.output, Extended(i, c.name), path + {o}, j, q);
      }
    }
  }

  lemma {:induction false} AliasBelowRecords(
    cli: Cli, book: Book, children: seq<Child>, i: Invocation, path: set<Output>)
    requires Sound(cli, book) && BlankFree(cli) && Listed(book, children)
    ensures RecordsBelow(book, book, AliasBelow(book, children, i, path), children, i, path)
    decreases |book.Keys - path|, 1, |children|
  {
    if children != [] {
      var n := |children| - 1;
      var c := children[n];
      var front := AliasBelow(book, children[..n], i, path);
      AliasBelowSound(cli, book, children[..n], i, path);
      AliasBelowRecords(cli, book, children[..n], i, path);
      AliasRecords(cli, front, c.output, Extended(i, c.name), path);
      OneMoreBelow(cli, book, front, AddAlias(front, c.output, Extended(i, c.name), path), children, i, path);
    }
  }

  /** Siblings do not record what begins with another name. */
  lemma SiblingsApart(book: Book, front: Book, children: seq<Child>, i: Invocation, path: set<Output>)
    requires children != [] && Listed(book, children)
    requires RecordsBelow(book, book, front, children[..|children| - 1], i, path)
    ensures SameBehind(book, front, Extended(i, children[|children| - 1].name))
  {
    var n := |children| - 1;
    var next := Extended(i, children[n].name);
    forall names, q ensures Recorded(book, Along(next, names), q) <==> Recorded(front, Along(next, names), q) {
      if AddsBelow(book, book, children[..n], i, path, Along(next, names), q) {
        var c :| c in children[..n] && Adds(book, book, c.output, Extended(i, c.name), path, Along(next, names), q);
        var others :| Along(next, names) == Along(Extended(i, c.name), others) &&
          Fresh(book, book, c.output, Extended(i, c.name), path, others, q);
        assert c in children && children[n] in children && c.name != children[n].name;
        AlongDiffers(i, children[n].name, names, c.name, others);
      }
    }
  }

  lemma OneMoreBelow(cli: Cli, book: Book, front: Book, r: Book, children: seq<Child>, i: Invocation, path: set<Output>)
    requires children != [] && Listed(book, children) && Sound(cli, book) && Grown(book, front)
    requires RecordsBelow(book, book, front, children[..|children| - 1], i, path)
    requires var c := children[|children| - 1]; RecordsCall(front, front, r, c.output, Extended(i, c.name), path)
    ensures RecordsBelow(book, book, r, children, i, path)
  {
    var n := |children| - 1;
    var c := children[n];
    assert children == children[..n] + [c];
    SoundIsSameOff(cli, book, front, path);
    SiblingsApart(book, front, children, i, path);
    forall j, q ensures Recorded(r, j, q) <==> Recorded(book, j, q) || AddsBelow(book, book, children, i, path, j, q) {
      AddsAlike(book, front, book, front, c.output, Extended(i, c.name), path, j, q);
    }
  }

  // ---------------------------------------------------------------- visits

  /** What the visit of the first `n` commands of page `o` adds. */
  ghost predicate AddsFirst(
    cli: Cli, graph: Book, book: Book, o: Output, n: nat, path: set<Output>, j: Invocation, q: Output)
    requires o in book && n <= |cli.commands(o)|
  {
    exists m :: 0 <= m < n && AddsCommand(cli, graph, book, o, m, path, j, q)
  }

  ghost predicate AddsCommand(
    cli: Cli, graph: Book, book: Book, o: Output, m: nat, path: set<Output>, j: Invocation, q: Output)
    requires o in book && m < |cli.commands(o)|
  {
    var call := cli.help(NextCall(cli, book, o, m));
    call.Some? && Adds(graph, book, call.value, Extended(Spelled(book[o].args), cli.commands(o)[m]), path, j, q)
  }

  ghost predicate RecordsFirst(cli: Cli, graph: Book, book: Book, r: Book, o: Output, n: nat, path: set<Output>)
    requires o in book && n <= |cli.commands(o)|
  {
    forall j, q :: Recorded(r, j, q) <==> Recorded(book, j, q) || AddsFirst(cli, graph, book, o, n, path, j, q)
  }

  ghost predicate VisitExact(cli: Cli, b: Book, a: seq<Word>, p: set<Output>, r: Visited) {
    Sound(cli, b) && Complete(cli, b, p) && p <= b.Keys ==>
      VisitKept(cli, b, a, r) &&
      (r.Visited? ==> Complete(cli, r.book, p) && RecordsCall(r.book, b, r.book, r.output, Spelled(a), p))
  }

  ghost predicate CommandsExact(cli: Cli, b: Book, o: Output, n: nat, p: set<Output>, r: Visited) {
    Sound(cli, b) && Complete(cli, b, p) && p <= b.Keys && o in p && n <= |cli.commands(o)| ==>
      CommandsKept(cli, b, o, n, r) &&
      (r.Visited? ==> Complete(cli, r.book, p) && RecordsFirst(cli, r.book, b, r.book, o, n, p))
  }

  ghost function ExactVisits(cli: Cli): OfVisit {
    (b, a, p, r) => VisitExact(cli, b, a, p, r)
  }

  ghost function ExactCommands(cli: Cli): OfCommands {
    (b, o, n: nat, p, r) => CommandsExact(cli, b, o, n, p, r)
  }

  lemma AliasExact(cli: Cli, b: Book, a: seq<Word>, p: set<Output>, o: Output)
    requires BlankFree(cli) && cli.help(a) == Some(o) && o in b
    ensures VisitExact(cli, b, a, p, Visited(AddAlias(b, o, Spelled(a), p), o))
  {
    if Sound(cli, b) && Complete(cli, b, p) && p <= b.Keys {
      var r := AddAlias(b, o, Spelled(a), p);
      AliasSound(cli, b, o, Spelled(a), p);
      AliasRecords(cli, b, o, Spelled(a), p);
      CompleteGrows(cli, b, r, p, {});
      SoundIsSameOff(cli, b, r, p);
      forall j, q ensures Adds(b, b, o, Spelled(a), p, j, q) <==> Adds(r, b, o, Spelled(a), p, j, q) {
        AddsAlike(b, r, b, b, o, Spelled(a), p, j, q);
      }
    }
  }

  predicate CommandIsChild(cli: Cli, after: Book, o: Output, args: seq<Word>, name: Word)
    requires o in after
  {
    cli.help(args + [name]).Some? && Child(name, cli.help(args + [name]).value) in after[o].children
  }

  /** A finished page has exactly its commands as children. */
  lemma ChildrenAreCommands(cli: Cli, after: Book, o: Output, args: seq<Word>)
    requires Sound(cli, after) && o in after && after[o].args == args && HasChildren(cli, after, o, |cli.commands(o)|)
    ensures forall c :: c in after[o].children ==>
              c.name in cli.commands(o) && cli.help(args + [c.name]) == Some(c.output)
    ensures forall m :: 0 <= m < |cli.commands(o)| ==> CommandIsChild(cli, after, o, args, cli.commands(o)[m])
  {
    assert PageSound(cli, after, o);
    forall c | c in after[o].children
      ensures c.name in cli.commands(o) && cli.help(args + [c.name]) == Some(c.output)
    {
      assert ChildSound(cli, after, o, args, c);
    }
    forall m | 0 <= m < |cli.commands(o)| ensures CommandIsChild(cli, after, o, args, cli.commands(o)[m]) {
      var name := cli.commands(o)[m];
      assert HasChild(after[o].children, name);
      ChildOfIn(after[o].children, name);
      var c := Child(name, ChildOf(after[o].children, name).value);
      assert ChildSound(cli, after, o, args, c);
    }
  }

  lemma NewPageRecords(b: Book, a: seq<Word>, o: Output)
    requires o !in b
    ensures forall j, q :: Recorded(NewPage(b, a, o), j, q) <==> Recorded(b, j, q) || (j == Spelled(a) && q == o)
    ensures forall name :: SameBehind(b, NewPage(b, a, o), Extended(Spelled(a), name))
  {
    forall name ensures SameBehind(b, NewPage(b, a, o), Extended(Spelled(a), name)) {
      forall names, q
        ensures Recorded(b, Along(Extended(Spelled(a), name), names), q) <==>
                Recorded(NewPage(b, a, o), Along(Extended(Spelled(a), name), names), q)
      {
        AlongStarts(Extended(Spelled(a), name), names);
      }
    }
  }

  /** What the commands of a new page add is what the call adds below it. */
  lemma CommandsAreBelow(
    cli: Cli, b: Book, a: seq<Word>, o: Output, p: set<Output>, after: Book, j: Invocation, q: Output)
    requires o !in b && Sound(cli, after) && o in after && after[o].args == a
    requires HasChildren(cli, after, o, |cli.commands(o)|)
    ensures AddsFirst(cli, after, NewPage(b, a, o), o, |cli.commands(o)|, p + {o}, j, q) <==>
            AddsBelow(after, b, after[o].children, Spelled(a), p + {o}, j, q)
  {
    var started := NewPage(b, a, o);
    NewPageRecords(b, a, o);
    ChildrenAreCommands(cli, after, o, a);
    SoundIsSameOff(cli, after, after, p + {o});
    assert PageSound(cli, after, o);
    forall c | c in after[o].children
      ensures Adds(after, b, c.output, Extended(Spelled(a), c.name), p + {o}, j, q) <==>
              Adds(after, started, c.output, Extended(Spelled(a), c.name), p + {o}, j, q)
    {
      assert ChildSound(cli, after, o, a, c);
      AddsAlike(after, after, b, started, c.output, Extended(Spelled(a), c.name), p + {o}, j, q);
    }
    if AddsFirst(cli, after, started, o, |cli.commands(o)|, p + {o}, j, q) {
      var m :| 0 <= m < |cli.commands(o)| && AddsCommand(cli, after, started, o, m, p + {o}, j, q);
      assert CommandIsChild(cli, after, o, a, cli.commands(o)[m]);
      var c := Child(cli.commands(o)[m], cli.help(a + [cli.commands(o)[m]]).value);
      assert Adds(after, b, c.output, Extended(Spelled(a), c.name), p + {o}, j, q);
    }
    if AddsBelow(after, b, after[o].children, Spelled(a), p + {o}, j, q) {
      var c :| c in after[o].children && Adds(after, b, c.output, Extended(Spelled(a), c.name), p + {o}, j, q);
      var m :| 0 <= m < |cli.commands(o)| && cli.commands(o)[m] == c.name;
      assert AddsCommand(cli, after, started, o, m, p + {o}, j, q);
    }
  }

  lemma PageExact(cli: Cli, b: Book, a: seq<Word>, p: set<Output>, o: Output, after: Book)
    requires BlankFree(cli) && cli.help(a) == Some(o) && o !in b && o in after
    requires CommandsExact(cli, NewPage(b, a, o), o, |cli.commands(o)|, p + {o}, Visited(after, o))
    ensures VisitExact(cli, b, a, p, Visited(after, o))
  {
    if Sound(cli, b) && Complete(cli, b, p) && p <= b.Keys {
      var started := NewPage(b, a, o);
      NewPageSound(cli, b, a, o);
      NewPageIncomplete(cli, b, a, o, p);
      PageKept(cli, b, a, o, Visited(after, o));
      PageCompleted(cli, after, o, p);
      NewPageRecords(b, a, o);
      forall j, q ensures Recorded(after, j, q) <==> Recorded(b, j, q) || Adds(after, b, o, Spelled(a), p, j, q) {
        AddsUnfolds(after, b, o, Spelled(a), p, j, q);
        CommandsAreBelow(cli, b, a, o, p, after, j, q);
      }
    }
  }

  /** What the next command is called with extends the page's own call. */
  lemma NextCallSpelled(cli: Cli, b: Book, o: Output, m: nat)
    requires o in b && m < |cli.commands(o)|
    ensures Spelled(NextCall(cli, b, o, m)) == Extended(Spelled(b[o].args), cli.commands(o)[m])
  {
    SpelledSnoc(b[o].args, cli.commands(o)[m]);
  }

  /** The commands before did not record what begins with another name. */
  lemma CommandsApart(cli: Cli, b: Book, before: Book, o: Output, n: nat, p: set<Output>)
    requires BlankFree(cli) && o in b && n < |cli.commands(o)| && RecordsFirst(cli, before, b, before, o, n, p)
    requires cli.commands(o)[n] !in cli.commands(o)[..n]
    ensures SameBehind(before, b, Extended(Spelled(b[o].args), cli.commands(o)[n]))
  {
    var i, name := Spelled(b[o].args), cli.commands(o)[n];
    forall names, q
      ensures Recorded(before, Along(Extended(i, name), names), q) <==> Recorded(b, Along(Extended(i, name), names), q)
    {
      var j := Along(Extended(i, name), names);
      if AddsFirst(cli, before, b, o, n, p, j, q) {
        var m :| 0 <= m < n && AddsCommand(cli, before, b, o, m, p, j, q);
        var other := cli.commands(o)[m];
        var others :| j == Along(Extended(i, other), others) &&
          Fresh(before, b, cli.help(NextCall(cli, b, o, m)).value, Extended(i, other), p, others, q);
        assert other in cli.commands(o)[..n] && other in cli.commands(o) && name in cli.commands(o);
        AlongDiffers(i, name, names, other, others);
      }
    }
  }

  /** A command listed twice was recorded the first time. */
  lemma RepeatedAddsNothing(
    cli: Cli, b: Book, before: Book, graph: Book, o: Output, n: nat, p: set<Output>, child: Output,
    j: Invocation, q: Output)
    requires o in b && n < |cli.commands(o)| && RecordsFirst(cli, before, b, before, o, n, p)
    requires cli.commands(o)[n] in cli.commands(o)[..n] && cli.help(NextCall(cli, b, o, n)) == Some(child)
    ensures !Adds(graph, before, child, Extended(Spelled(b[o].args), cli.commands(o)[n]), p, j, q)
  {
    var i := Extended(Spelled(b[o].args), cli.commands(o)[n]);
    var m :| 0 <= m < n && cli.commands(o)[m] == cli.commands(o)[n];
    if !Recorded(b, i, child) {
      assert Along(i, []) == i && Fresh(before, b, child, i, p, [], child);
      assert AddsCommand(cli, before, b, o, m, p, i, child);
    }
    assert Recorded(before, i, child);
  }

  /** On a larger graph, the commands add the same. */
  lemma FirstAlike(
    cli: Cli, b: Book, before: Book, r: Book, o: Output, n: nat, p: set<Output>, j: Invocation, q: Output)
    requires o in b && n <= |cli.commands(o)| && SameOff(before, r, p)
    requires forall m :: 0 <= m < n && cli.help(NextCall(cli, b, o, m)).Some? ==>
             cli.help(NextCall(cli, b, o, m)).value in before
    ensures AddsFirst(cli, before, b, o, n, p, j, q) <==> AddsFirst(cli, r, b, o, n, p, j, q)
  {
    forall m | 0 <= m < n
      ensures AddsCommand(cli, before, b, o, m, p, j, q) <==> AddsCommand(cli, r, b, o, m, p, j, q)
    {
      var call := cli.help(NextCall(cli, b, o, m));
      if call.Some? {
        AddsAlike(before, r, b, b, call.value, Extended(Spelled(b[o].args), cli.commands(o)[m]), p, j, q);
      }
    }
  }

  /** The commands visited have pages. */
  lemma CommandsHavePages(cli: Cli, b: Book, before: Book, o: Output, n: nat, m: nat)
    requires o in b && m < n <= |cli.commands(o)| && CommandsKept(cli, b, o, n, Visited(before, o))
    ensures cli.help(NextCall(cli, b, o, m)).Some? && cli.help(NextCall(cli, b, o, m)).value in before
  {
    var name := cli.commands(o)[m];
    assert HasChild(before[o].children, name);
    ChildOfIn(before[o].children, name);
    assert PageSound(cli, before, o);
    assert ChildSound(cli, before, o, b[o].args, Child(name, ChildOf(before[o].children, name).value));
  }

  lemma AdoptRecords(after: Book, o: Output, name: Word, child: Output)
    requires o in after
    ensures forall j, q :: Recorded(Adopt(after, o, name, child), j, q) <==> Recorded(after, j, q)
  {
  }

  lemma CommandExact(cli: Cli, b: Book, o: Output, n: nat, p: set<Output>, before: Book, after: Book, child: Output)
    requires BlankFree(cli) && o in b && n < |cli.commands(o)| && o in before && o in after
    requires CommandsExact(cli, b, o, n, p, Visited(before, o))
    requires VisitExact(cli, before, NextCall(cli, b, o, n), p, Visited(after, child))
    ensures CommandsExact(cli, b, o, n + 1, p, Visited(Adopt(after, o, cli.commands(o)[n], child), o))
  {
    if Sound(cli, b) && Complete(cli, b, p) && p <= b.Keys && o in p {
      var adopted := Adopt(after, o, cli.commands(o)[n], child);
      CommandAdopted(cli, b, Visited(before, o), Visited(after, child), o, n);
      CompleteAdopts(cli, after, o, cli.commands(o)[n], child, p);
      MoreCommands(cli, b, o, n, p, before, after, child);
    }
  }

  lemma MoreCommands(cli: Cli, b: Book, o: Output, n: nat, p: set<Output>, before: Book, after: Book, child: Output)
    requires BlankFree(cli) && o in b && o in p && n < |cli.commands(o)| && o in before && o in after
    requires CommandsKept(cli, b, o, n, Visited(before, o)) && RecordsFirst(cli, before, b, before, o, n, p)
    requires VisitKept(cli, before, NextCall(cli, b, o, n), Visited(after, child))
    requires RecordsCall(after, before, after, child, Spelled(NextCall(cli, b, o, n)), p)
    ensures var adopted := Adopt(after, o, cli.commands(o)[n], child);
            RecordsFirst(cli, adopted, b, adopted, o, n + 1, p)
  {
    AdoptRecords(after, o, cli.commands(o)[n], child);
    forall j, q
      ensures Recorded(after, j, q) <==>
                Recorded(b, j, q) || AddsFirst(cli, Adopt(after, o, cli.commands(o)[n], child), b, o, n + 1, p, j, q)
    {
      OneMoreCommand(cli, b, o, n, p, before, after, child, j, q);
    }
  }

  /** Visiting the next command does not change what those before it add. */
  lemma FirstStays(cli: Cli, b: Book, o: Output, n: nat, p: set<Output>, before: Book, after: Book, child: Output,
                   j: Invocation, q: Output)
    requires o in b && o in p && n < |cli.commands(o)| && o in before && o in after
    requires CommandsKept(cli, b, o, n, Visited(before, o)) && Grown(before, after)
    ensures AddsFirst(cli, before, b, o, n, p, j, q) <==>
              AddsFirst(cli, Adopt(after, o, cli.commands(o)[n], child), b, o, n, p, j, q)
  {
    var adopted := Adopt(after, o, cli.commands(o)[n], child);
    SoundIsSameOff(cli, before, adopted, p);
    forall m | 0 <= m < n
      ensures cli.help(NextCall(cli, b, o, m)).Some? && cli.help(NextCall(cli, b, o, m)).value in before
    {
      CommandsHavePages(cli, b, before, o, n, m);
    }
    FirstAlike(cli, b, before, adopted, o, n, p, j, q);
  }

  lemma OneMoreCommand(cli: Cli, b: Book, o: Output, n: nat, p: set<Output>, before: Book, after: Book, child: Output,
                       j: Invocation, q: Output)
    requires BlankFree(cli) && o in b && o in p && n < |cli.commands(o)| && o in before && o in after
    requires CommandsKept(cli, b, o, n, Visited(before, o)) && RecordsFirst(cli, before, b, before, o, n, p)
    requires VisitKept(cli, before, NextCall(cli, b, o, n), Visited(after, child))
    requires RecordsCall(after, before, after, child, Spelled(NextCall(cli, b, o, n)), p)
    ensures var adopted := Adopt(after, o, cli.commands(o)[n], child);
            Recorded(after, j, q) <==> Recorded(b, j, q) || AddsFirst(cli, adopted, b, o, n + 1, p, j, q)
  {
    var adopted := Adopt(after, o, cli.commands(o)[n], child);
    FirstStays(cli, b, o, n, p, before, after, child, j, q);
    FirstOrNext(cli, adopted, b, o, n, p, j, q);
    NextAdds(cli, b, o, n, p, before, after, child, j, q);
  }

  /** What the visit of the next command adds, or one before it did when it is listed twice. */
  lemma NextAdds(cli: Cli, b: Book, o: Output, n: nat, p: set<Output>, before: Book, after: Book, child: Output,
                 j: Invocation, q: Output)
    requires BlankFree(cli) && o in b && o in p && n < |cli.commands(o)| && o in before && o in after
    requires RecordsFirst(cli, before, b, before, o, n, p)
    requires VisitKept(cli, before, NextCall(cli, b, o, n), Visited(after, child))
    ensures var adopted := Adopt(after, o, cli.commands(o)[n], child);
            var adds := Adds(after, before, child, Spelled(NextCall(cli, b, o, n)), p, j, q);
            && (adds ==> AddsCommand(cli, adopted, b, o, n, p, j, q))
            && (AddsCommand(cli, adopted, b, o, n, p, j, q) ==> adds || AddsFirst(cli, adopted, b, o, n, p, j, q))
  {
    var name := cli.commands(o)[n];
    var adopted := Adopt(after, o, name, child);
    NextCallSpelled(cli, b, o, n);
    if name in cli.commands(o)[..n] {
      RepeatedAddsNothing(cli, b, before, after, o, n, p, child, j, q);
      RepeatedIsEarlier(cli, adopted, b, o, n, p, j, q);
    } else {
      NewNameAdds(cli, b, o, n, p, before, after, child, j, q);
    }
  }

  lemma NewNameAdds(cli: Cli, b: Book, o: Output, n: nat, p: set<Output>, before: Book, after: Book, child: Output,
                    j: Invocation, q: Output)
    requires BlankFree(cli) && o in b && o in p && n < |cli.commands(o)| && o in before && o in after
    requires RecordsFirst(cli, before, b, before, o, n, p) && cli.commands(o)[n] !in cli.commands(o)[..n]
    requires VisitKept(cli, before, NextCall(cli, b, o, n), Visited(after, child))
    ensures Adds(after, before, child, Extended(Spelled(b[o].args), cli.commands(o)[n]), p, j, q) <==>
              AddsCommand(cli, Adopt(after, o, cli.commands(o)[n], child), b, o, n, p, j, q)
  {
    var adopted := Adopt(after, o, cli.commands(o)[n], child);
    SoundIsSameOff(cli, after, adopted, p);
    CommandsApart(cli, b, before, o, n, p);
    AddsAlike(after, adopted, before, b, child, Extended(Spelled(b[o].args), cli.commands(o)[n]), p, j, q);
  }

  lemma RepeatedIsEarlier(cli: Cli, graph: Book, b: Book, o: Output, n: nat, p: set<Output>, j: Invocation, q: Output)
    requires o in b && n < |cli.commands(o)| && cli.commands(o)[n] in cli.commands(o)[..n]
    ensures AddsCommand(cli, graph, b, o, n, p, j, q) ==> AddsFirst(cli, graph, b, o, n, p, j, q)
  {
    var m :| 0 <= m < n && cli.commands(o)[m] == cli.commands(o)[n];
    assert AddsCommand(cli, graph, b, o, n, p, j, q) <==> AddsCommand(cli, graph, b, o, m, p, j, q);
  }

  lemma FirstOrNext(cli: Cli, graph: Book, b: Book, o: Output, n: nat, p: set<Output>, j: Invocation, q: Output)
    requires o in b && n < |cli.commands(o)|
    ensures AddsFirst(cli, graph, b, o, n + 1, p, j, q) <==>
              AddsFirst(cli, graph, b, o, n, p, j, q) || AddsCommand(cli, graph, b, o, n, p, j, q)
  {
  }

  /** A visit records exactly what its call adds, on every page graph. */
  lemma VisitRecords(cli: Cli, book: Book, args: seq<Word>, path: set<Output>)
    requires Finite(cli) && BlankFree(cli) && Sound(cli, book) && Complete(cli, book, path) && path <= book.Keys
    ensures var r := Visit(cli, book, args, path);
            r.Visited? ==> RecordsCall(r.book, book, r.book, r.output, Spelled(args), path)
  {
    AliasExactRule(cli);
    PageExactRule(cli);
    CommandExactRule(cli);
    VisitInduction(cli, ExactVisits(cli), ExactCommands(cli), book, args, path);
  }

  lemma AliasExactRule(cli: Cli)
    requires BlankFree(cli)
    ensures AliasRule(cli, ExactVisits(cli))
  {
    forall b, a, p, o | cli.help(a) == Some(o) && o in b
      ensures ExactVisits(cli)(b, a, p, Visited(AddAlias(b, o, Spelled(a), p), o))
    {
      AliasExact(cli, b, a, p, o);
    }
  }

  lemma PageExactRule(cli: Cli)
    requires BlankFree(cli)
    ensures PageRule(cli, ExactVisits(cli), ExactCommands(cli))
  {
    forall b, a, p, o, after |
      && cli.help(a) == Some(o) && o !in b
      && ExactCommands(cli)(NewPage(b, a, o), o, |cli.commands(o)|, p + {o}, Visited(after, o)) && o in after
      ensures ExactVisits(cli)(b, a, p, Visited(after, o))
    {
      PageExact(cli, b, a, p, o, after);
    }
  }

  lemma CommandExactRule(cli: Cli)
    requires BlankFree(cli)
    ensures CommandRule(cli, ExactVisits(cli), ExactCommands(cli))
  {
    forall b, o, n: nat, p, before, call, after, child |
      && o in b && n < |cli.commands(o)| && call == NextCall(cli, b, o, n)
      && o in before && o in after
      && ExactCommands(cli)(b, o, n, p, Visited(before, o)) && ExactVisits(cli)(before, call, p, Visited(after, child))
      ensures ExactCommands(cli)(b, o, n + 1, p, Visited(Adopt(after, o, cli.commands(o)[n], child), o))
    {
      CommandExact(cli, b, o, n, p, before, after, child);
    }
  }

  // ---------------------------------------------------------------- the whole collection

  /**
   Top call `k` adds the invocation: its walk meets no page twice before its end, and nothing
   earlier calls recorded.
   */
  ghost predicate TopAdds(cli: Cli, tops: seq<seq<Word>>, graph: Book, k: nat, j: Invocation, q: Output)
    requires Finite(cli) && k < |tops|
  {
    var earlier := Collect(cli, tops[..k]);
    earlier.Collected? && cli.help(tops[k]).Some? &&
    Adds(graph, earlier.book, cli.help(tops[k]).value, Spelled(tops[k]), {}, j, q)
  }

  /**
   On every page graph, cyclic or not, the recorded invocations are exactly those of walks from a
   top call over pages that differ, up to the last one, through calls that no earlier top call recorded.
   */
  lemma {:induction false} RecordedExactly(cli: Cli, tops: seq<seq<Word>>, j: Invocation, q: Output)
    requires Finite(cli) && BlankFree(cli) && Collect(cli, tops).Collected?
    ensures Recorded(Collect(cli, tops).book, j, q) <==> SomeTopAdds(cli, tops, Collect(cli, tops).book, |tops|, j, q)
  {
    if tops != [] {
      var front := tops[..|tops| - 1];
      RecordedExactly(cli, front, j, q);
      CollectRefers(cli, front);
      OneMoreTopAdds(cli, front, tops, Collect(cli, front).book, Collect(cli, tops).book, j, q);
    }
  }

  ghost predicate SomeTopAdds(cli: Cli, tops: seq<seq<Word>>, graph: Book, n: nat, j: Invocation, q: Output)
    requires Finite(cli) && n <= |tops|
  {
    exists k :: 0 <= k < n && TopAdds(cli, tops, graph, k, j, q)
  }

  lemma OneMoreTopAdds(cli: Cli, front: seq<seq<Word>>, tops: seq<seq<Word>>, before: Book, book: Book,
                       j: Invocation, q: Output)
    requires Finite(cli) && BlankFree(cli) && tops != [] && front == tops[..|tops| - 1]
    requires Collect(cli, front) == Collected(before) && Collect(cli, tops) == Collected(book)
    requires Sound(cli, before) && Complete(cli, before, {})
    requires Recorded(before, j, q) <==> SomeTopAdds(cli, front, before, |front|, j, q)
    ensures Recorded(book, j, q) <==> SomeTopAdds(cli, tops, book, |tops|, j, q)
  {
    assert SameOff(before, book, {}) &&
           (Recorded(book, j, q) <==> Recorded(before, j, q) || TopAdds(cli, tops, book, |front|, j, q)) by {
      LastTop(cli, tops, before, book, j, q);
    }
    assert SomeTopAdds(cli, front, before, |front|, j, q) <==> SomeTopAdds(cli, tops, book, |front|, j, q) by {
      EarlierTops(cli, front, tops, before, book, j, q);
    }
    LastOrEarlier(cli, tops, book, |front|, j, q);
  }

  lemma LastOrEarlier(cli: Cli, tops: seq<seq<Word>>, book: Book, n: nat, j: Invocation, q: Output)
    requires Finite(cli) && n < |tops|
    ensures SomeTopAdds(cli, tops, book, n + 1, j, q) <==>
              SomeTopAdds(cli, tops, book, n, j, q) || TopAdds(cli, tops, book, n, j, q)
  {
  }

  lemma TopGrows(cli: Cli, before: Book, t: seq<Word>)
    requires Finite(cli) && BlankFree(cli) && Sound(cli, before) && Complete(cli, before, {})
    requires Visit(cli, before, t, {}).Visited?
    ensures var visit := Visit(cli, before, t, {});
            && VisitKept(cli, before, t, visit) && SameOff(before, visit.book, {})
            && RecordsCall(visit.book, before, visit.book, visit.output, Spelled(t), {})
  {
    VisitSound(cli, before, t, {});
    VisitRecords(cli, before, t, {});
    SoundIsSameOff(cli, before, Visit(cli, before, t, {}).book, {});
  }

  lemma LastTop(cli: Cli, tops: seq<seq<Word>>, before: Book, book: Book, j: Invocation, q: Output)
    requires Finite(cli) && BlankFree(cli) && tops != [] && Collect(cli, tops[..|tops| - 1]) == Collected(before)
    requires Collect(cli, tops) == Collected(book) && Sound(cli, before) && Complete(cli, before, {})
    ensures SameOff(before, book, {})
    ensures Recorded(book, j, q) <==> Recorded(before, j, q) || TopAdds(cli, tops, book, |tops| - 1, j, q)
  {
    TopGrows(cli, before, tops[|tops| - 1]);
  }

  lemma EarlierTops(cli: Cli, front: seq<seq<Word>>, tops: seq<seq<Word>>, before: Book, book: Book,
                    j: Invocation, q: Output)
    requires Finite(cli) && tops != [] && front == tops[..|tops| - 1]
    requires Collect(cli, front) == Collected(before) && SameOff(before, book, {})
    ensures SomeTopAdds(cli, front, before, |front|, j, q) <==> SomeTopAdds(cli, tops, book, |front|, j, q)
  {
    forall k | 0 <= k < |front|
      ensures TopAdds(cli, front, before, k, j, q) <==> TopAdds(cli, tops, book, k, j, q)
    {
      EarlierTop(cli, front, tops, before, book, k, j, q);
    }
  }

  lemma EarlierTop(cli: Cli, front: seq<seq<Word>>, tops: seq<seq<Word>>, before: Book, book: Book, k: nat,
                   j: Invocation, q: Output)
    requires Finite(cli) && tops != [] && front == tops[..|tops| - 1] && k < |front|
    requires Collect(cli, front) == Collected(before) && SameOff(before, book, {})
    ensures TopAdds(cli, front, before, k, j, q) <==> TopAdds(cli, tops, book, k, j, q)
  {
    assert front[..k] == tops[..k] && front[k] == tops[k] && tops[k] in front;
    TopHasPage(cli, front, before, tops[k]);
    EarlierCollected(cli, front, k);
    var earlier := Collect(cli, tops[..k]).book;
    AddsAlike(before, book, earlier, earlier, cli.help(tops[k]).value, Spelled(tops[k]), {}, j, q);
  }

  lemma TopHasPage(cli: Cli, tops: seq<seq<Word>>, book: Book, t: seq<Word>)
    requires Finite(cli) && Collect(cli, tops) == Collected(book) && t in tops
    ensures cli.help(t).Some? && cli.help(t).value in book
  {
    CollectRefers(cli, tops);
    assert CallRecorded(cli, book, t);
  }

  lemma {:induction false} EarlierCollected(cli: Cli, tops: seq<seq<Word>>, k: nat)
    requires Finite(cli) && Collect(cli, tops).Collected? && k <= |tops|
    ensures Collect(cli, tops[..k]).Collected?
  {
    if k < |tops| {
      EarlierCollected(cli, tops[..|tops| - 1], k);
      assert tops[..|tops| - 1][..k] == tops[..k];
    } else {
      assert tops[..k] == tops;
    }
  }

  /** An invocation is the launcher followed by the words, each behind a blank. */
  lemma SpelledWords(args: seq<Word>, name: Word)
    ensures Spelled([]) == Invocation("dsh")
    ensures Spelled(args + [name]) == Invocation(Spelled(args).text + " " + name.text)
  {
    SpelledSnoc(args, name);
    assert ["dsh"] + Texts([]) == ["dsh"];
  }

  // ---------------------------------------------------------------- one step below an alias

  /** On every page graph, a new alias off the path is continued on each child. */
  lemma AliasReachesChildren(cli: Cli, book: Book, o: Output, i: Invocation, path: set<Output>)
    requires Sound(cli, book) && o in book && o !in path && i !in book[o].invocations
    ensures forall c :: c in book[o].children ==> Recorded(AddAlias(book, o, i, path), Extended(i, c.name), c.output)
  {
    var recorded := Record(book, o, i);
    RecordSound(cli, book, o, i);
    SmallerRest(book.Keys, path, o);
    assert PageSound(cli, recorded, o);
    forall c | c in book[o].children ensures c.output in recorded {
      assert ChildSound(cli, recorded, o, book[o].args, c);
    }
    BelowReaches(cli, recorded, book[o].children, i, path + {o});
  }

  lemma {:induction false} BelowReaches(cli: Cli, book: Book, children: seq<Child>, i: Invocation, path: set<Output>)
    requires Sound(cli, book) && forall c :: c in children ==> c.output in book
    ensures forall c :: c in children ==> Recorded(AliasBelow(book, children, i, path), Extended(i, c.name), c.output)
    decreases |children|
  {
    if children != [] {
      var n := |children| - 1;
      var front := AliasBelow(book, children[..n], i, path);
      BelowReaches(cli, book, children[..n], i, path);
      AliasBelowSound(cli, book, children[..n], i, path);
      AliasSound(cli, front, children[n].output, Extended(i, children[n].name), path);
      var r := AddAlias(front, children[n].output, Extended(i, children[n].name), path);
      OneMoreReached(front, r, children, i);
    }
  }

  lemma OneMoreReached(front: Book, r: Book, children: seq<Child>, i: Invocation)
    requires children != [] && Grown(front, r)
    requires forall c :: c in children[..|children| - 1] ==> Recorded(front, Extended(i, c.name), c.output)
    requires var c := children[|children| - 1]; Recorded(r, Extended(i, c.name), c.output)
    ensures forall c :: c in children ==> Recorded(r, Extended(i, c.name), c.output)
  {
    var n := |children| - 1;
    assert children == children[..n] + [children[n]];
    forall c | c in children[..n] ensures Recorded(r, Extended(i, c.name), c.output) {
      assert Recorded(front, Extended(i, c.name), c.output);
    }
  }

  lemma {:induction false} EarlierGrows(cli: Cli, tops: seq<seq<Word>>, k: nat)
    requires Finite(cli) && Collect(cli, tops).Collected? && k <= |tops|
    ensures Collect(cli, tops[..k]).Collected? && Grown(Collect(cli, tops[..k]).book, Collect(cli, tops).book)
  {
    if k < |tops| {
      var front := tops[..|tops| - 1];
      EarlierGrows(cli, front, k);
      assert front[..k] == tops[..k];
      CollectRefers(cli, front);
      VisitSound(cli, Collect(cli, front).book, tops[|tops| - 1], {});
      GrownTwice(Collect(cli, tops[..k]).book, Collect(cli, front).book, Collect(cli, tops).book, {});
    } else {
      assert tops[..k] == tops;
    }
  }

  lemma LaterRecorded(cli: Cli, tops: seq<seq<Word>>, k: nat, book: Book, j: Invocation, q: Output)
    requires Finite(cli) && Collect(cli, tops).Collected? && k <= |tops|
    requires Collect(cli, tops[..k]) == Collected(book) && Recorded(book, j, q)
    ensures Recorded(Collect(cli, tops).book, j, q)
  {
    EarlierGrows(cli, tops, k);
  }

  /** A top call whose text has a page that did not record it is followed to every command of that page. */
  lemma TopReachesCommands(cli: Cli, tops: seq<seq<Word>>, k: nat, earlier: Book, o: Output, name: Word)
    requires Finite(cli) && Collect(cli, tops).Collected? && k < |tops| && Collect(cli, tops[..k]) == Collected(earlier)
    requires cli.help(tops[k]) == Some(o) && o in earlier && !Recorded(earlier, Spelled(tops[k]), o)
    requires name in cli.commands(o)
    ensures var page := cli.help(earlier[o].args + [name]);
            page.Some? && Recorded(Collect(cli, tops).book, Spelled(tops[k] + [name]), page.value)
  {
    ReferenceOf(cli, tops[..k], earlier);
    AliasReachesCommand(cli, earlier, o, Spelled(tops[k]), name);
    SpelledSnoc(tops[k], name);
    TopIsAlias(cli, tops, k, earlier, o);
    LaterRecorded(cli, tops, k + 1, AddAlias(earlier, o, Spelled(tops[k]), {}), Spelled(tops[k] + [name]),
                  cli.help(earlier[o].args + [name]).value);
  }

  lemma ReferenceOf(cli: Cli, tops: seq<seq<Word>>, book: Book)
    requires Finite(cli) && Collect(cli, tops) == Collected(book)
    ensures Sound(cli, book) && Complete(cli, book, {})
  {
    CollectRefers(cli, tops);
  }

  lemma AliasReachesCommand(cli: Cli, book: Book, o: Output, i: Invocation, name: Word)
    requires Sound(cli, book) && Complete(cli, book, {}) && o in book && i !in book[o].invocations
    requires name in cli.commands(o)
    ensures var page := cli.help(book[o].args + [name]);
            page.Some? && Recorded(AddAlias(book, o, i, {}), Extended(i, name), page.value)
  {
    AliasReachesChildren(cli, book, o, i, {});
    var m :| 0 <= m < |cli.commands(o)| && cli.commands(o)[m] == name;
    ChildrenAreCommands(cli, book, o, book[o].args);
    assert CommandIsChild(cli, book, o, book[o].args, cli.commands(o)[m]);
  }

  lemma TopIsAlias(cli: Cli, tops: seq<seq<Word>>, k: nat, earlier: Book, o: Output)
    requires Finite(cli) && k < |tops| && Collect(cli, tops[..k]) == Collected(earlier)
    requires cli.help(tops[k]) == Some(o) && o in earlier
    ensures Collect(cli, tops[..k + 1]) == Collected(AddAlias(earlier, o, Spelled(tops[k]), {}))
  {
    var longer := tops[..k + 1];
    assert longer[..|longer| - 1] == tops[..k] && longer[|longer| - 1] == tops[k];
  }
}
