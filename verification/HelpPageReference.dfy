/** The collected reference as a whole: its pages, and exactly which invocations they record. */
module HelpPageReference {
  import opened Outcomes
  import opened Sorting
  import opened HelpPages
  import opened HelpPageGraph
  import opened HelpPageWalks
  import opened HelpPageClosure

  /** The call succeeds, and the page that shows its text records it. */
  predicate CallRecorded(cli: Cli, book: Book, t: seq<Word>) {
    && cli.help(t).Some? && cli.help(t).value in book
    && Spelled(t) in book[cli.help(t).value].invocations
  }

  /** Every top call is recorded. */
  predicate TopsRecorded(cli: Cli, tops: seq<seq<Word>>, book: Book) {
    forall t :: t in tops ==> CallRecorded(cli, book, t)
  }

  lemma WalkedFromMore(cli: Cli, tops: seq<seq<Word>>, more: seq<seq<Word>>, book: Book)
    requires AllWalked(cli, tops, book) && forall t :: t in tops ==> t in more
    ensures AllWalked(cli, more, book)
  {
    forall o | o in book ensures PageWalked(cli, more, book, o) {
      assert PageWalked(cli, tops, book, o);
      forall i | i in book[o].invocations ensures Walked(cli, more, book, i, o) {
        var t, names :| WalkOf(cli, tops, book, i, o, t, names);
        assert WalkOf(cli, more, book, i, o, t, names);
      }
    }
  }

  /** A top call is the empty walk. */
  lemma TopWalked(cli: Cli, tops: seq<seq<Word>>, book: Book, t: seq<Word>)
    requires t in tops
    ensures CallWalked(cli, tops, book, t)
  {
    if cli.help(t).Some? {
      assert t + [] == t;
      assert WalkOf(cli, tops, book, Spelled(t), cli.help(t).value, t, []);
    }
  }

  lemma TopsStayRecorded(cli: Cli, tops: seq<seq<Word>>, book: Book, more: Book)
    requires TopsRecorded(cli, tops, book) && Grown(book, more)
    ensures TopsRecorded(cli, tops, more)
  {
    forall t | t in tops ensures CallRecorded(cli, more, t) {
      assert CallRecorded(cli, book, t);
    }
  }

  /** What holds of the collected pages. */
  ghost predicate Reference(cli: Cli, tops: seq<seq<Word>>, book: Book) {
    Sound(cli, book) && Complete(cli, book, {}) && AllWalked(cli, tops, book) && TopsRecorded(cli, tops, book)
  }

  lemma {:induction false} CollectRefers(cli: Cli, tops: seq<seq<Word>>)
    requires Finite(cli)
    ensures Collect(cli, tops).Collected? ==> Reference(cli, tops, Collect(cli, tops).book)
  {
    if tops != [] && Collect(cli, tops).Collected? {
      var front := tops[..|tops| - 1];
      CollectRefers(cli, front);
      TopRefers(cli, tops, Collect(cli, front).book);
    }
  }

  lemma TopRefers(cli: Cli, tops: seq<seq<Word>>, book: Book)
    requires Finite(cli) && tops != [] && Reference(cli, tops[..|tops| - 1], book)
    ensures var visit := Visit(cli, book, tops[|tops| - 1], {});
            visit.Visited? ==> Reference(cli, tops, visit.book)
  {
    var last := tops[|tops| - 1];
    WalkedFromMore(cli, tops[..|tops| - 1], tops, book);
    TopWalked(cli, tops, book, last);
    VisitRefers(cli, tops, book, last);
  }

  lemma VisitRefers(cli: Cli, tops: seq<seq<Word>>, book: Book, last: seq<Word>)
    requires Finite(cli) && tops != [] && last == tops[|tops| - 1]
    requires Sound(cli, book) && Complete(cli, book, {}) && AllWalked(cli, tops, book)
    requires TopsRecorded(cli, tops[..|tops| - 1], book) && CallWalked(cli, tops, book, last)
    ensures var visit := Visit(cli, book, last, {});
            visit.Visited? ==> Reference(cli, tops, visit.book)
  {
    var visit := Visit(cli, book, last, {});
    if visit.Visited? {
      VisitSound(cli, book, last, {});
      VisitCompletes(cli, book, last, {});
      VisitRecordsWalks(cli, tops, book, last, {});
      OneMoreTop(cli, tops, book, visit);
    }
  }

  lemma OneMoreTop(cli: Cli, tops: seq<seq<Word>>, book: Book, visit: Visited)
    requires tops != [] && TopsRecorded(cli, tops[..|tops| - 1], book)
    requires visit.Visited? && VisitKept(cli, book, tops[|tops| - 1], visit)
    ensures TopsRecorded(cli, tops, visit.book)
  {
    var n := |tops| - 1;
    TopsStayRecorded(cli, tops[..n], book, visit.book);
    assert tops == tops[..n] + [tops[n]];
  }

  lemma {:induction false} CollectCloses(cli: Cli, rank: Output -> nat, tops: seq<seq<Word>>)
    requires Finite(cli)
    ensures Collect(cli, tops).Collected? && Ranked(cli, Collect(cli, tops).book, rank) ==>
              Closed(Collect(cli, tops).book, {})
  {
    if tops != [] && Collect(cli, tops).Collected? && Ranked(cli, Collect(cli, tops).book, rank) {
      var front := tops[..|tops| - 1];
      CollectRefers(cli, front);
      TopCloses(cli, rank, Collect(cli, front).book, tops[|tops| - 1], Collect(cli, tops).book);
      CollectCloses(cli, rank, front);
    }
  }

  lemma TopCloses(cli: Cli, rank: Output -> nat, book: Book, top: seq<Word>, more: Book)
    requires Finite(cli) && Sound(cli, book)
    requires Visit(cli, book, top, {}).Visited? && more == Visit(cli, book, top, {}).book && Ranked(cli, more, rank)
    ensures Ranked(cli, book, rank)
    ensures Closed(book, {}) ==> Closed(more, {})
  {
    VisitSound(cli, book, top, {});
    RankedBefore(cli, book, more, rank);
    if Closed(book, {}) {
      VisitClosed(cli, rank, book, top, {});
    }
  }

  // ---------------------------------------------------------------- failures

  lemma {:induction false} VisitSucceeds(cli: Cli, book: Book, args: seq<Word>, path: set<Output>)
    requires Finite(cli) && forall a :: cli.help(a).Some?
    ensures Visit(cli, book, args, path).Visited?
    decreases Unseen(cli, book), 0, 0
  {
    var o := cli.help(args).value;
    if o !in book {
      NewPageSeen(cli, book, args, o);
      CommandsSucceed(cli, NewPage(book, args, o), args, o, |cli.commands(o)|, path + {o});
    }
  }

  lemma {:induction false} CommandsSucceed(cli: Cli, book: Book, args: seq<Word>, o: Output, n: nat, path: set<Output>)
    requires Finite(cli) && o in book && n <= |cli.commands(o)| && forall a :: cli.help(a).Some?
    ensures VisitCommands(cli, book, args, o, n, path).Visited?
    decreases Unseen(cli, book), 1, n
  {
    if n > 0 {
      CommandsSucceed(cli, book, args, o, n - 1, path);
      var front := VisitCommands(cli, book, args, o, n - 1, path).book;
      FewerUnseen(cli, book, front);
      VisitSucceeds(cli, front, args + [cli.commands(o)[n - 1]], path);
    }
  }

  /** The collection fails only because some call does. */
  lemma {:induction false} SuccessfulCallsCollect(cli: Cli, tops: seq<seq<Word>>)
    requires Finite(cli) && forall a :: cli.help(a).Some?
    ensures Collect(cli, tops).Collected?
  {
    if tops != [] {
      SuccessfulCallsCollect(cli, tops[..|tops| - 1]);
      VisitSucceeds(cli, Collect(cli, tops[..|tops| - 1]).book, tops[|tops| - 1], {});
    }
  }

  // ---------------------------------------------------------------- the pages

  /** The text is printed at the end of some walk from a top call. */
  ghost predicate Reachable(cli: Cli, tops: seq<seq<Word>>, book: Book, o: Output) {
    exists t, names :: t in tops && cli.help(t).Some? && Follow(cli, book, cli.help(t).value, names) == Some(o)
  }

  /** The children of every page are the pages its commands lead to. */
  ghost predicate Linked(cli: Cli, book: Book) {
    && (forall p, name :: p in book ==> (name in cli.commands(p) <==> Edge(cli, book, p, name).Some?))
    && (forall p, name :: p in book && Edge(cli, book, p, name).Some? ==>
          LinksTo(book, p, name, Edge(cli, book, p, name).value))
    && (forall p, c :: p in book && c in book[p].children ==> Edge(cli, book, p, c.name) == Some(c.output))
  }

  predicate LinksTo(book: Book, p: Output, name: Word, o: Output) {
    p in book && o in book && Child(name, o) in book[p].children
  }

  lemma PageLinked(cli: Cli, book: Book, p: Output, name: Word)
    requires p in book && PageSound(cli, book, p) && HasChildren(cli, book, p, |cli.commands(p)|)
    ensures name in cli.commands(p) <==> Edge(cli, book, p, name).Some?
    ensures Edge(cli, book, p, name).Some? ==> LinksTo(book, p, name, Edge(cli, book, p, name).value)
  {
    if name in cli.commands(p) {
      assert HasChild(book[p].children, name);
      ChildOfIn(book[p].children, name);
      assert ChildSound(cli, book, p, book[p].args, Child(name, ChildOf(book[p].children, name).value));
    }
  }

  lemma ChildLinked(cli: Cli, book: Book, p: Output, c: Child)
    requires p in book && PageSound(cli, book, p) && c in book[p].children
    ensures Edge(cli, book, p, c.name) == Some(c.output)
  {
    assert ChildSound(cli, book, p, book[p].args, c);
  }

  lemma ReferenceLinked(cli: Cli, book: Book)
    requires Sound(cli, book) && Complete(cli, book, {})
    ensures Linked(cli, book)
  {
    forall p, name | p in book
      ensures name in cli.commands(p) <==> Edge(cli, book, p, name).Some?
      ensures Edge(cli, book, p, name).Some? ==> LinksTo(book, p, name, Edge(cli, book, p, name).value)
    {
      PageLinked(cli, book, p, name);
    }
    forall p, c | p in book && c in book[p].children ensures Edge(cli, book, p, c.name) == Some(c.output) {
      ChildLinked(cli, book, p, c);
    }
  }

  lemma {:induction false} WalkStaysInside(cli: Cli, book: Book, o: Output, names: seq<Word>)
    requires Linked(cli, book) && o in book
    ensures Follow(cli, book, o, names).Some? ==> Follow(cli, book, o, names).value in book
  {
    if names != [] && Follow(cli, book, o, names).Some? {
      var n := |names| - 1;
      WalkStaysInside(cli, book, o, names[..n]);
      assert LinksTo(book, Follow(cli, book, o, names[..n]).value, names[n], Follow(cli, book, o, names).value);
    }
  }

  /** A page of the book: it shows the text its arguments print, and holds no invocation twice. */
  ghost predicate PageShows(cli: Cli, book: Book, o: Output)
    requires o in book
  {
    cli.help(book[o].args) == Some(o) && NoDuplicates(book[o].invocations)
  }

  /** There is a page for a text exactly when a walk reaches it. */
  ghost predicate PagesReached(cli: Cli, tops: seq<seq<Word>>, book: Book) {
    forall o :: o in book <==> Reachable(cli, tops, book, o)
  }

  ghost predicate PagesShow(cli: Cli, book: Book) {
    forall o :: o in book ==> PageShows(cli, book, o)
  }

  lemma SoundPagesShow(cli: Cli, book: Book)
    requires Sound(cli, book)
    ensures PagesShow(cli, book)
  {
    forall o | o in book ensures PageShows(cli, book, o) {
      assert PageSound(cli, book, o);
    }
  }

  lemma WalkedIsReached(cli: Cli, tops: seq<seq<Word>>, book: Book, o: Output)
    requires o in book && PageWalked(cli, tops, book, o) && book[o].invocations != []
    ensures Reachable(cli, tops, book, o)
  {
    assert book[o].invocations[0] in book[o].invocations;
    var t, names :| WalkOf(cli, tops, book, book[o].invocations[0], o, t, names);
  }

  lemma ReachedHasPage(cli: Cli, tops: seq<seq<Word>>, book: Book, o: Output)
    requires Linked(cli, book) && TopsRecorded(cli, tops, book) && Reachable(cli, tops, book, o)
    ensures o in book
  {
    var t, names :| t in tops && cli.help(t).Some? && Follow(cli, book, cli.help(t).value, names) == Some(o);
    assert CallRecorded(cli, book, t);
    WalkStaysInside(cli, book, cli.help(t).value, names);
  }

  lemma WalksReachPages(cli: Cli, tops: seq<seq<Word>>, book: Book)
    requires Linked(cli, book) && TopsRecorded(cli, tops, book) && AllWalked(cli, tops, book)
    requires forall p :: p in book ==> book[p].invocations != []
    ensures PagesReached(cli, tops, book)
  {
    forall o ensures o in book <==> Reachable(cli, tops, book, o) {
      if o in book {
        WalkedIsReached(cli, tops, book, o);
      } else if Reachable(cli, tops, book, o) {
        ReachedHasPage(cli, tops, book, o);
      }
    }
  }

  /**
   One page for every text that a walk reaches and for no other: each shows the text its
   arguments print, holds no invocation twice, and has as children exactly the pages that its
   commands lead to.
   */
  lemma PagesAreReachableTexts(cli: Cli, tops: seq<seq<Word>>, book: Book)
    requires Finite(cli) && Collect(cli, tops) == Collected(book)
    ensures PagesReached(cli, tops, book) && PagesShow(cli, book) && Linked(cli, book)
  {
    CollectRefers(cli, tops);
    ReferencePages(cli, tops, book);
  }

  lemma ReferencePages(cli: Cli, tops: seq<seq<Word>>, book: Book)
    requires Reference(cli, tops, book)
    ensures PagesReached(cli, tops, book) && PagesShow(cli, book) && Linked(cli, book)
  {
    ReferenceLinked(cli, book);
    SoundPagesShow(cli, book);
    PagesHaveInvocations(cli, book);
    WalksReachPages(cli, tops, book);
  }

  lemma CommandRecorded(cli: Cli, book: Book, o: Output, name: Word)
    requires o in book && PageSound(cli, book, o) && HasChildren(cli, book, o, |cli.commands(o)|) &&
             name in cli.commands(o)
    ensures CallRecorded(cli, book, book[o].args + [name])
  {
    PageLinked(cli, book, o, name);
    assert ChildSound(cli, book, o, book[o].args, Child(name, Edge(cli, book, o, name).value));
  }

  lemma CommandsRecorded(cli: Cli, book: Book)
    requires Sound(cli, book) && Complete(cli, book, {})
    ensures forall o, name :: o in book && name in cli.commands(o) ==> CallRecorded(cli, book, book[o].args + [name])
  {
    forall o, name | o in book && name in cli.commands(o)
      ensures CallRecorded(cli, book, book[o].args + [name])
    {
      CommandRecorded(cli, book, o, name);
    }
  }

  /** Every call that was read is recorded on the page of its text: the top calls, and each page's commands. */
  lemma EveryReadIsRecorded(cli: Cli, tops: seq<seq<Word>>, book: Book)
    requires Finite(cli) && Collect(cli, tops) == Collected(book)
    ensures TopsRecorded(cli, tops, book)
    ensures forall o, name :: o in book && name in cli.commands(o) ==> CallRecorded(cli, book, book[o].args + [name])
  {
    CollectRefers(cli, tops);
    CommandsRecorded(cli, book);
  }

  // ---------------------------------------------------------------- the invocations

  predicate Recorded(book: Book, i: Invocation, o: Output) {
    o in book && i in book[o].invocations
  }

  /** On every page graph, cyclic or not, a recorded invocation spells a walk to its page. */
  lemma RecordedIsWalk(cli: Cli, tops: seq<seq<Word>>, book: Book, i: Invocation, o: Output)
    requires Finite(cli) && Collect(cli, tops) == Collected(book) && Recorded(book, i, o)
    ensures Walked(cli, tops, book, i, o)
  {
    CollectRefers(cli, tops);
    assert PageWalked(cli, tops, book, o);
  }

  lemma {:induction false} ClosedRecordsWalk(
    cli: Cli, tops: seq<seq<Word>>, book: Book, t: seq<Word>, names: seq<Word>, o: Output)
    requires Linked(cli, book) && TopsRecorded(cli, tops, book) && Closed(book, {})
    requires t in tops && cli.help(t).Some? && Follow(cli, book, cli.help(t).value, names) == Some(o)
    ensures Recorded(book, Spelled(t + names), o)
  {
    if names == [] {
      assert t + names == t;
      assert CallRecorded(cli, book, t);
    } else {
      var n := |names| - 1;
      var p := Follow(cli, book, cli.help(t).value, names[..n]).value;
      ClosedRecordsWalk(cli, tops, book, t, names[..n], p);
      EdgeRecorded(cli, book, t + names[..n], p, names[n], o);
      assert t + names == (t + names[..n]) + [names[n]];
    }
  }

  lemma EdgeRecorded(cli: Cli, book: Book, words: seq<Word>, p: Output, name: Word, o: Output)
    requires Linked(cli, book) && Closed(book, {}) && Recorded(book, Spelled(words), p)
    requires Edge(cli, book, p, name) == Some(o)
    ensures Recorded(book, Spelled(words + [name]), o)
  {
    assert LinksTo(book, p, name, o);
    LinkRecorded(book, words, p, name, o);
  }

  lemma LinkRecorded(book: Book, words: seq<Word>, p: Output, name: Word, o: Output)
    requires Closed(book, {}) && Recorded(book, Spelled(words), p) && LinksTo(book, p, name, o)
    ensures Recorded(book, Spelled(words + [name]), o)
  {
    SpelledSnoc(words, name);
    ContinuedAt(book, p, Spelled(words), Child(name, o));
  }

  lemma ContinuedAt(book: Book, p: Output, i: Invocation, c: Child)
    requires Closed(book, {}) && Recorded(book, i, p) && c in book[p].children
    ensures Recorded(book, Extended(i, c.name), c.output)
  {
    assert ClosedPage(book, p) && ContinuedAll(book, i, book[p].children) && Continued(book, i, c);
  }

  function Longest(calls: seq<Invocation>): nat {
    if calls == [] then 0
    else
      var front, last := Longest(calls[..|calls| - 1]), |calls[|calls| - 1].text|;
      if front < last then last else front
  }

  lemma {:induction false} LongestIsGreatest(calls: seq<Invocation>)
    ensures forall i :: i in calls ==> |i.text| <= Longest(calls)
    ensures calls != [] ==> exists i :: i in calls && |i.text| == Longest(calls)
  {
    if calls != [] {
      var n := |calls| - 1;
      LongestIsGreatest(calls[..n]);
      assert calls == calls[..n] + [calls[n]];
      if Longest(calls) > |calls[n].text| {
        var i :| i in calls[..n] && |i.text| == Longest(calls[..n]);
        assert i in calls;
      }
    }
  }

  lemma LongestOf(book: Book) returns (bound: nat)
    ensures forall o :: o in book ==> Longest(book[o].invocations) <= bound
    decreases |book|
  {
    bound := 0;
    if book != map[] {
      var o :| o in book;
      var rest := book - {o};
      bound := LongestOf(rest);
      if bound < Longest(book[o].invocations) {
        bound := Longest(book[o].invocations);
      }
      forall p | p in book ensures Longest(book[p].invocations) <= bound {
        if p != o {
          assert p in rest && rest[p] == book[p];
        }
      }
    }
  }

  function RankBelow(book: Book, bound: nat, o: Output): nat {
    if o in book && Longest(book[o].invocations) <= bound then bound - Longest(book[o].invocations) else 0
  }

  /** Pages that continue everything rank by their longest invocation, which grows along every edge. */
  lemma ClosedIsRanked(cli: Cli, book: Book) returns (rank: Output -> nat)
    requires Linked(cli, book) && Closed(book, {}) && forall p :: p in book ==> book[p].invocations != []
    ensures Ranked(cli, book, rank)
  {
    var bound := LongestOf(book);
    rank := o => RankBelow(book, bound, o);
    forall p, name | Edge(cli, book, p, name).Some? ensures rank(Edge(cli, book, p, name).value) < rank(p) {
      var o := Edge(cli, book, p, name).value;
      assert LinksTo(book, p, name, o);
      LongerBelow(book, p, Child(name, o));
      assert Longest(book[o].invocations) <= bound;
    }
  }

  lemma LongerBelow(book: Book, p: Output, c: Child)
    requires Closed(book, {}) && p in book && book[p].invocations != [] && c in book[p].children
    ensures c.output in book && Longest(book[p].invocations) < Longest(book[c.output].invocations)
  {
    LongestIsGreatest(book[p].invocations);
    var i :| i in book[p].invocations && |i.text| == Longest(book[p].invocations);
    ContinuedAt(book, p, i, c);
    LongestIsGreatest(book[c.output].invocations);
    assert Extended(i, c.name) in book[c.output].invocations;
  }

  /** Every walk from a top call is recorded, and nothing else. */
  ghost predicate RecordsEveryWalk(cli: Cli, tops: seq<seq<Word>>, book: Book) {
    forall i, o :: Walked(cli, tops, book, i, o) <==> Recorded(book, i, o)
  }

  lemma WalksRecordedCloses(cli: Cli, tops: seq<seq<Word>>, book: Book)
    requires Linked(cli, book) && RecordsEveryWalk(cli, tops, book)
    ensures Closed(book, {})
  {
    forall p | p in book ensures ClosedPage(book, p) {
      forall i | i in book[p].invocations ensures ContinuedAll(book, i, book[p].children) {
        forall c | c in book[p].children ensures Continued(book, i, c) {
          assert Recorded(book, i, p);
          WalkedFurther(cli, tops, book, i, p, c.name, c.output);
          assert Recorded(book, Extended(i, c.name), c.output);
        }
      }
    }
  }

  lemma ClosedRecordsEveryWalk(cli: Cli, tops: seq<seq<Word>>, book: Book)
    requires Linked(cli, book) && TopsRecorded(cli, tops, book) && AllWalked(cli, tops, book) && Closed(book, {})
    ensures RecordsEveryWalk(cli, tops, book)
  {
    forall i, o ensures Walked(cli, tops, book, i, o) <==> Recorded(book, i, o) {
      if Recorded(book, i, o) {
        assert PageWalked(cli, tops, book, o);
      }
      if Walked(cli, tops, book, i, o) {
        var t, names :| WalkOf(cli, tops, book, i, o, t, names);
        ClosedRecordsWalk(cli, tops, book, t, names, o);
      }
    }
  }

  lemma PagesHaveInvocations(cli: Cli, book: Book)
    requires Sound(cli, book)
    ensures forall p :: p in book ==> book[p].invocations != []
  {
    forall p | p in book ensures book[p].invocations != [] {
      assert PageSound(cli, book, p);
    }
  }

  /** The recorded invocations are exactly the walks if and only if the page graph has no cycle. */
  lemma RecordsEveryWalkIffAcyclic(cli: Cli, tops: seq<seq<Word>>, book: Book)
    requires Finite(cli) && Collect(cli, tops) == Collected(book)
    ensures RecordsEveryWalk(cli, tops, book) <==> exists rank :: Ranked(cli, book, rank)
  {
    CollectRefers(cli, tops);
    ReferenceLinked(cli, book);
    PagesHaveInvocations(cli, book);
    if RecordsEveryWalk(cli, tops, book) {
      WalksRecordedCloses(cli, tops, book);
      var rank := ClosedIsRanked(cli, book);
    }
    if rank :| Ranked(cli, book, rank) {
      CollectCloses(cli, rank, tops);
      ClosedRecordsEveryWalk(cli, tops, book);
    }
  }
}
