/**
 The first-in, first-out slot limit shared by prefetched and on-demand help reads.

 A read is a task. The steps below are the blocks of code that run between two awaits, so a
 run is any interleaving of them: a request, the resumption of a task that holds a slot, the
 settling of a running read, and an abort.
 */
module HelpPrefetch {
  import opened Decimals
  import opened Outcomes
  import opened Sorting

  type Args = seq<string>

  /** A task waits for a slot, holds one it has not resumed with, runs its read, or is settled. */
  datatype Phase = Queued | Granted | Reading | Settled(fulfilled: bool)

  /**
   `started` are the arguments that each task reads. `granted` and `begun` record the order of slot
   grants and of `read` calls; `requests` are the arguments requested so far, and `served` the tasks
   that answer them.
   */
  datatype State = State(
    concurrency: nat,
    active: nat,
    waiting: seq<nat>,
    phases: seq<Phase>,
    started: seq<Args>,
    aborted: bool,
    prefetched: map<Args, nat>,
    granted: seq<nat>,
    begun: seq<nat>,
    requests: seq<Args>,
    served: seq<nat>)

  datatype Event = Request(args: Args) | Resume(task: nat) | Settle(task: nat, fulfilled: bool) | Abort

  // ---------------------------------------------------------------- the steps

  function Idle(concurrency: nat): State {
    State(concurrency, 0, [], [], [], false, map[], [], [], [], [])
  }

  /** Take a slot, or queue behind every earlier task. */
  function Acquire(s: State, args: Args): State {
    var task := |s.phases|;
    if s.active < s.concurrency then
      s.(active := s.active + 1, phases := s.phases + [Granted], started := s.started + [args],
         granted := s.granted + [task])
    else
      s.(waiting := s.waiting + [task], phases := s.phases + [Queued], started := s.started + [args])
  }

  /** A slot given up goes to the first task in the queue; with an empty queue one slot fewer is in use. */
  function Release(s: State): State
    requires s.waiting == [] ==> s.active > 0
    requires s.waiting != [] ==> s.waiting[0] < |s.phases|
  {
    if s.waiting == [] then s.(active := s.active - 1)
    else
      s.(waiting := s.waiting[1..], phases := s.phases[s.waiting[0] := Granted], granted := s.granted + [s.waiting[0]])
  }

  function Prefetch(s: State, args: Args): State {
    Acquire(s, args).(prefetched := s.prefetched[args := |s.phases|])
  }

  function Prefetches(s: State, prefetch: seq<Args>): State {
    if prefetch == [] then s else Prefetch(Prefetches(s, prefetch[..|prefetch| - 1]), prefetch[|prefetch| - 1])
  }

  /** The state in which the reader is handed out. */
  function Initial(concurrency: nat, prefetch: seq<Args>): (s: State)
    requires concurrency >= 1
    ensures Valid(s) && !s.aborted && s.begun == s.served == [] && s.requests == [] && s.started == prefetch
  {
    PrefetchesValid(Idle(concurrency), prefetch);
    Prefetches(Idle(concurrency), prefetch)
  }

  predicate Enabled(s: State, event: Event) {
    match event
    case Request(_) => true
    case Resume(task) => task < |s.phases| && s.phases[task].Granted?
    case Settle(task, _) => task < |s.phases| && s.phases[task].Reading?
    case Abort => true
  }

  function Step(s: State, event: Event): State
    requires Valid(s) && Enabled(s, event)
  {
    match event
    case Request(args) =>
      if args in s.prefetched then
        s.(prefetched := s.prefetched - {args}, requests := s.requests + [args],
           served := s.served + [s.prefetched[args]])
      else Acquire(s, args).(requests := s.requests + [args], served := s.served + [|s.phases|])
    case Resume(task) =>
      if s.aborted then HolderCounts(s.phases, task); Release(s.(phases := s.phases[task := Settled(false)]))
      else s.(phases := s.phases[task := Reading], begun := s.begun + [task])
    case Settle(task, fulfilled) =>
      HolderCounts(s.phases, task);
      Release(s.(phases := s.phases[task := Settled(fulfilled)]))
    case Abort => s.(aborted := true)
  }

  // ---------------------------------------------------------------- the invariant

  /** The number of tasks that hold a slot. */
  function Holders(phases: seq<Phase>): nat {
    if phases == [] then 0
    else Holders(phases[..|phases| - 1]) + Holds(phases[|phases| - 1])
  }

  function Holds(phase: Phase): nat {
    if phase.Granted? || phase.Reading? then 1 else 0
  }

  /** Tasks `from`, `from` + 1, and so on, in the order in which they were started. */
  ghost predicate InStartOrder(tasks: seq<nat>, from: nat) {
    forall i :: 0 <= i < |tasks| ==> tasks[i] == from + i
  }

  /** Slots are accounted for, and have been granted in the order in which the reads were started. */
  ghost predicate SlotsValid(s: State) {
    && s.active == Holders(s.phases) <= s.concurrency
    && (s.waiting != [] ==> s.active == s.concurrency)
    && |s.granted| + |s.waiting| == |s.phases|
    && InStartOrder(s.granted, 0)
    && InStartOrder(s.waiting, |s.granted|)
    && forall task :: 0 <= task < |s.phases| ==> (s.phases[task].Queued? <==> task >= |s.granted|)
  }

  /** A read begins at most once, and only with a slot. */
  ghost predicate ReadsValid(s: State) {
    && NoDuplicates(s.begun)
    && (forall task :: task in s.begun ==>
          task < |s.phases| && (s.phases[task].Reading? || s.phases[task].Settled?))
    && forall task :: 0 <= task < |s.phases| && s.phases[task].Reading? ==> task in s.begun
  }

  /** No two requests are answered by the same task, and each is answered by a task that reads what it asks for. */
  ghost predicate ServiceValid(s: State) {
    && |s.started| == |s.phases|
    && NoDuplicates(s.served)
    && (forall task :: task in s.served ==> task < |s.phases|)
    && (forall args :: args in s.prefetched ==> s.prefetched[args] < |s.phases| && s.prefetched[args] !in s.served)
    && Answers(s)
  }

  /** The task kept for some arguments was started for them, and so was the task that answered them. */
  ghost predicate Answers(s: State)
    requires |s.started| == |s.phases|
  {
    && (forall args :: args in s.prefetched ==>
         s.prefetched[args] < |s.started| && s.started[s.prefetched[args]] == args)
    && |s.requests| == |s.served|
    && forall k :: 0 <= k < |s.served| ==> s.served[k] < |s.started| && s.started[s.served[k]] == s.requests[k]
  }

  ghost predicate Valid(s: State) {
    s.concurrency >= 1 && SlotsValid(s) && ReadsValid(s) && ServiceValid(s)
  }

  lemma {:induction false} HoldersUpdate(phases: seq<Phase>, task: nat, phase: Phase)
    requires task < |phases|
    ensures Holders(phases[task := phase]) == Holders(phases) - Holds(phases[task]) + Holds(phase)
  {
    var n := |phases| - 1;
    if task == n {
      assert phases[task := phase][..n] == phases[..n];
    } else {
      HoldersUpdate(phases[..n], task, phase);
      assert phases[task := phase][..n] == phases[..n][task := phase];
    }
  }

  lemma {:induction false} HolderCounts(phases: seq<Phase>, task: nat)
    requires task < |phases|
    ensures Holders(phases) >= Holds(phases[task])
  {
    if task < |phases| - 1 {
      HolderCounts(phases[..|phases| - 1], task);
    }
  }

  lemma AcquireValid(s: State, args: Args)
    requires Valid(s)
    ensures Valid(Acquire(s, args)) && |Acquire(s, args).phases| == |s.phases| + 1
  {
    AcquireKeepsSlots(s, args);
    AcquireKeepsReads(s, args);
  }

  lemma AcquireKeepsSlots(s: State, args: Args)
    requires Valid(s)
    ensures SlotsValid(Acquire(s, args)) && |Acquire(s, args).phases| == |s.phases| + 1
  {
    assert Acquire(s, args).phases[..|s.phases|] == s.phases;
  }

  lemma AcquireKeepsReads(s: State, args: Args)
    requires Valid(s)
    ensures ReadsValid(Acquire(s, args)) && ServiceValid(Acquire(s, args))
  {
    forall task | task in s.begun ensures task < |s.phases| && Acquire(s, args).phases[task] == s.phases[task] {
    }
  }

  lemma SettleCounts(s: State, task: nat, fulfilled: bool)
    requires Valid(s) && task < |s.phases| && Holds(s.phases[task]) == 1
    ensures var t := s.(phases := s.phases[task := Settled(fulfilled)]);
            && (t.waiting == [] ==> t.active > 0)
            && (t.waiting != [] ==> t.waiting[0] < |t.phases|)
            && Release(t).active == Holders(Release(t).phases)
  {
    HolderCounts(s.phases, task);
    HoldersUpdate(s.phases, task, Settled(fulfilled));
    if s.waiting != [] {
      HoldersUpdate(s.phases[task := Settled(fulfilled)], s.waiting[0], Granted);
    }
  }

  lemma SettleKeepsSlots(s: State, task: nat, fulfilled: bool)
    requires Valid(s) && task < |s.phases| && Holds(s.phases[task]) == 1
    ensures var t := s.(phases := s.phases[task := Settled(fulfilled)]);
            && (t.waiting == [] ==> t.active > 0)
            && (t.waiting != [] ==> t.waiting[0] < |t.phases|)
            && SlotsValid(Release(t))
  {
    SettleCounts(s, task, fulfilled);
  }

  lemma SettleKeepsReads(s: State, task: nat, fulfilled: bool)
    requires Valid(s) && task < |s.phases| && Holds(s.phases[task]) == 1
    ensures var t := s.(phases := s.phases[task := Settled(fulfilled)]);
            && (t.waiting == [] ==> t.active > 0)
            && (t.waiting != [] ==> t.waiting[0] < |t.phases|)
            && ReadsValid(Release(t)) && ServiceValid(Release(t))
  {
    HolderCounts(s.phases, task);
  }

  lemma FreshTaskServes(s: State, args: Args)
    requires Valid(s)
    ensures ServiceValid(Acquire(s, args).(requests := s.requests + [args], served := s.served + [|s.phases|]))
  {
    forall i | 0 <= i < |s.served| ensures s.served[i] < |s.phases| {
      assert s.served[i] in s.served;
    }
  }

  lemma PrefetchedTaskServes(s: State, args: Args)
    requires Valid(s) && args in s.prefetched
    ensures Valid(s.(prefetched := s.prefetched - {args}, requests := s.requests + [args],
                     served := s.served + [s.prefetched[args]]))
  {
    forall i | 0 <= i < |s.served| ensures s.served[i] != s.prefetched[args] {
      assert s.served[i] in s.served;
    }
  }

  lemma BeginValid(s: State, task: nat)
    requires Valid(s) && task < |s.phases| && s.phases[task].Granted?
    ensures Valid(s.(phases := s.phases[task := Reading], begun := s.begun + [task]))
  {
    HoldersUpdate(s.phases, task, Reading);
    forall i | 0 <= i < |s.begun| ensures s.begun[i] != task {
      assert s.begun[i] in s.begun;
    }
  }

  lemma StepValid(s: State, event: Event)
    requires Valid(s) && Enabled(s, event)
    ensures Valid(Step(s, event))
  {
    match event
    case Request(args) =>
      if args in s.prefetched {
        PrefetchedTaskServes(s, args);
      } else {
        AcquireValid(s, args);
        FreshTaskServes(s, args);
      }
    case Resume(task) =>
      if s.aborted {
        SettleKeepsSlots(s, task, false);
        SettleKeepsReads(s, task, false);
      } else {
        BeginValid(s, task);
      }
    case Settle(task, fulfilled) =>
      SettleKeepsSlots(s, task, fulfilled);
      SettleKeepsReads(s, task, fulfilled);
    case Abort =>
  }

  lemma PrefetchValid(s: State, args: Args)
    requires Valid(s)
    ensures var t := Prefetch(s, args);
            && Valid(t) && t.aborted == s.aborted && t.begun == s.begun && t.served == s.served
            && t.requests == s.requests && t.started == s.started + [args]
  {
    AcquireValid(s, args);
    forall task | task in s.served ensures task < |s.phases| {
    }
  }

  lemma FrontAndLastStarted(started: seq<Args>, prefetch: seq<Args>)
    requires prefetch != []
    ensures started + prefetch[..|prefetch| - 1] + [prefetch[|prefetch| - 1]] == started + prefetch
  {
    assert prefetch == prefetch[..|prefetch| - 1] + [prefetch[|prefetch| - 1]];
  }

  lemma {:induction false} PrefetchesValid(s: State, prefetch: seq<Args>)
    requires Valid(s)
    ensures var t := Prefetches(s, prefetch);
            && Valid(t) && t.aborted == s.aborted && t.begun == s.begun && t.served == s.served
            && t.requests == s.requests && t.started == s.started + prefetch
  {
    if prefetch != [] {
      PrefetchesValid(s, prefetch[..|prefetch| - 1]);
      PrefetchValid(Prefetches(s, prefetch[..|prefetch| - 1]), prefetch[|prefetch| - 1]);
      FrontAndLastStarted(s.started, prefetch);
    }
  }

  // ---------------------------------------------------------------- whole runs

  /** `events` is a possible interleaving from `s`. */
  ghost predicate Runs(s: State, events: seq<Event>)
    requires Valid(s)
    decreases |events|
  {
    events != [] ==>
      && Enabled(s, events[0])
      && (StepValid(s, events[0]); Runs(Step(s, events[0]), events[1..]))
  }

  ghost function After(s: State, events: seq<Event>): (t: State)
    requires Valid(s) && Runs(s, events)
    ensures Valid(t)
    decreases |events|
  {
    if events == [] then s
    else
      StepValid(s, events[0]);
      After(Step(s, events[0]), events[1..])
  }

  /**
   Slot safety and fairness in every interleaving: the slots in use never exceed the limit
   and are all in use while a task waits; and those granted a slot are exactly the ones
   started first, in starting order, so no newcomer overtakes a waiter.
   */
  lemma SlotsSafeAndFair(concurrency: nat, prefetch: seq<Args>, events: seq<Event>)
    requires concurrency >= 1
    requires Runs(Initial(concurrency, prefetch), events)
    ensures var s := After(Initial(concurrency, prefetch), events);
            && s.active == Holders(s.phases) <= s.concurrency == concurrency
            && (s.waiting != [] ==> s.active == concurrency)
            && (forall i :: 0 <= i < |s.granted| ==> s.granted[i] == i)
            && (forall task :: 0 <= task < |s.phases| ==> (s.phases[task].Queued? <==> task >= |s.granted|))
            && NoDuplicates(s.begun) && (forall task :: task in s.begun ==> task in s.granted)
            && NoDuplicates(s.served)
  {
    var s := After(Initial(concurrency, prefetch), events);
    LimitKept(Idle(concurrency), prefetch);
    LimitFixed(Initial(concurrency, prefetch), events);
    forall task | task in s.begun ensures task in s.granted {
      assert s.granted[task] == task;
    }
  }

  lemma {:induction false} LimitKept(s: State, prefetch: seq<Args>)
    ensures Prefetches(s, prefetch).concurrency == s.concurrency
  {
    if prefetch != [] {
      LimitKept(s, prefetch[..|prefetch| - 1]);
    }
  }

  lemma {:induction false} LimitFixed(s: State, events: seq<Event>)
    requires Valid(s) && Runs(s, events)
    ensures After(s, events).concurrency == s.concurrency
    decreases |events|
  {
    if events != [] {
      StepValid(s, events[0]);
      LimitFixed(Step(s, events[0]), events[1..]);
    }
  }

  /** What a step never takes back: an abort, a settled task, a task's existence. */
  ghost predicate Later(s: State, t: State) {
    && (s.aborted ==> t.aborted && t.begun == s.begun)
    && |s.phases| <= |t.phases|
    && forall task :: 0 <= task < |s.phases| && s.phases[task].Settled? ==> t.phases[task] == s.phases[task]
  }

  lemma StepIsLater(s: State, event: Event)
    requires Valid(s) && Enabled(s, event)
    ensures Later(s, Step(s, event))
  {
    match event
    case Settle(task, _) => HolderCounts(s.phases, task);
    case Resume(task) => HolderCounts(s.phases, task);
    case _ =>
  }

  /** Once aborted, no read ever begins, whatever is requested or resumed afterwards. */
  lemma {:induction false} NoReadBeginsAfterAbort(s: State, events: seq<Event>)
    requires Valid(s) && Runs(s, events)
    ensures Later(s, After(s, events))
    ensures s.aborted ==> After(s, events).begun == s.begun
    decreases |events|
  {
    if events != [] {
      StepValid(s, events[0]);
      StepIsLater(s, events[0]);
      NoReadBeginsAfterAbort(Step(s, events[0]), events[1..]);
    }
  }

  /** The promise of `close`: the reads started by then have settled. */
  ghost predicate ClosedFor(s: State, started: nat) {
    started <= |s.phases| && forall task :: 0 <= task < started ==> s.phases[task].Settled?
  }

  /**
   `close` aborts at `s` and resolves at `t`, when every read started before it has settled:
   from then on no read is running, whatever is requested later.
   */
  lemma NothingRunsAfterClose(s: State, before: seq<Event>, after: seq<Event>)
    requires Valid(s) && Runs(Step(s, Abort), before)
    requires ClosedFor(After(Step(s, Abort), before), |s.phases|)
    requires Runs(After(Step(s, Abort), before), after)
    ensures var t := After(After(Step(s, Abort), before), after);
            && ClosedFor(t, |s.phases|)
            && forall task :: 0 <= task < |t.phases| ==> !t.phases[task].Reading?
  {
    var closing := Step(s, Abort);
    NoReadBeginsAfterAbort(closing, before);
    NoReadBeginsAfterAbort(After(closing, before), after);
    var t := After(After(closing, before), after);
    assert t.begun == s.begun;
    forall task | task in s.begun ensures t.phases[task].Settled? {
      assert After(closing, before).phases[task].Settled?;
    }
  }

  // ---------------------------------------------------------------- who answers a request

  /** `k` is the last prefetched read for these arguments. */
  predicate LastFor(prefetch: seq<Args>, args: Args, k: nat) {
    k < |prefetch| && prefetch[k] == args && args !in prefetch[k + 1..]
  }

  /** The reads that are kept when the reader is handed out: for each arguments the last one started for them. */
  lemma {:induction false} KeptAtFirst(concurrency: nat, prefetch: seq<Args>)
    ensures var kept := Prefetches(Idle(concurrency), prefetch).prefetched;
            && |Prefetches(Idle(concurrency), prefetch).phases| == |prefetch|
            && (forall args :: args in kept <==> args in prefetch)
            && forall args :: args in kept ==> LastFor(prefetch, args, kept[args])
  {
    if prefetch != [] {
      var n := |prefetch| - 1;
      KeptAtFirst(concurrency, prefetch[..n]);
      var kept := Prefetches(Idle(concurrency), prefetch).prefetched;
      assert prefetch == prefetch[..n] + [prefetch[n]];
      forall args | args in kept ensures LastFor(prefetch, args, kept[args]) {
        var k := kept[args];
        if k < n {
          assert prefetch[k + 1..] == prefetch[..n][k + 1..] + [prefetch[n]];
        }
      }
    }
  }

  ghost predicate RequestedIn(events: seq<Event>, args: Args) {
    Request(args) in events
  }

  /** A kept read is gone once it was requested, and only then. */
  lemma {:induction false} KeptUntilRequested(s: State, events: seq<Event>, args: Args)
    requires Valid(s) && Runs(s, events)
    ensures args in After(s, events).prefetched <==> args in s.prefetched && !RequestedIn(events, args)
    ensures args in After(s, events).prefetched ==> After(s, events).prefetched[args] == s.prefetched[args]
    decreases |events|
  {
    if events != [] {
      StepValid(s, events[0]);
      KeptUntilRequested(Step(s, events[0]), events[1..], args);
      StepKeeps(s, events[0], args);
      assert events == [events[0]] + events[1..];
    }
  }

  lemma StepKeeps(s: State, event: Event, args: Args)
    requires Valid(s) && Enabled(s, event)
    ensures args in Step(s, event).prefetched <==> args in s.prefetched && event != Request(args)
    ensures args in Step(s, event).prefetched ==> Step(s, event).prefetched[args] == s.prefetched[args]
  {
    match event
    case Request(_) =>
    case Resume(task) => HolderCounts(s.phases, task);
    case Settle(task, _) => HolderCounts(s.phases, task);
    case Abort =>
  }

  /**
   In every run the first request for prefetched arguments is answered by the last read that was
   prefetched for them, and starts no other; every further request, and one for other arguments,
   starts a read of its own for exactly the arguments requested.
   */
  lemma RequestAnswered(concurrency: nat, prefetch: seq<Args>, events: seq<Event>, args: Args)
    requires concurrency >= 1 && Runs(Initial(concurrency, prefetch), events)
    ensures var s := After(Initial(concurrency, prefetch), events);
            var t := Step(s, Request(args));
            if args in prefetch && !RequestedIn(events, args) then
              && t.started == s.started && t.phases == s.phases
              && exists k :: LastFor(prefetch, args, k) && t.served == s.served + [k]
            else
              && t.started == s.started + [args] && |t.phases| == |s.phases| + 1
              && t.served == s.served + [|s.phases|]
  {
    KeptAtFirst(concurrency, prefetch);
    KeptUntilRequested(Initial(concurrency, prefetch), events, args);
  }

  /** In every run, each request so far is answered by a task that was started for its arguments. */
  lemma AnswersAsRequested(concurrency: nat, prefetch: seq<Args>, events: seq<Event>)
    requires concurrency >= 1 && Runs(Initial(concurrency, prefetch), events)
    ensures var s := After(Initial(concurrency, prefetch), events);
            && s.requests == RequestsOf(events) && |s.served| == |s.requests|
            && forall k :: 0 <= k < |s.served| ==>
                 s.served[k] < |s.started| == |s.phases| && s.started[s.served[k]] == s.requests[k]
  {
    RequestsKept(Initial(concurrency, prefetch), events);
  }

  function RequestsOf(events: seq<Event>): seq<Args> {
    if events == [] then []
    else (if events[0].Request? then [events[0].args] else []) + RequestsOf(events[1..])
  }

  lemma {:induction false} RequestsKept(s: State, events: seq<Event>)
    requires Valid(s) && Runs(s, events)
    ensures After(s, events).requests == s.requests + RequestsOf(events)
    decreases |events|
  {
    if events != [] {
      StepValid(s, events[0]);
      StepRecords(s, events[0]);
      RequestsKept(Step(s, events[0]), events[1..]);
      RegroupRequests(s.requests, if events[0].Request? then [events[0].args] else [], RequestsOf(events[1..]));
    }
  }

  lemma RegroupRequests(x: seq<Args>, y: seq<Args>, z: seq<Args>)
    ensures (x + y) + z == x + (y + z)
  {
  }

  lemma StepRecords(s: State, event: Event)
    requires Valid(s) && Enabled(s, event)
    ensures Step(s, event).requests == s.requests + if event.Request? then [event.args] else []
  {
    match event
    case Request(_) =>
    case Resume(task) => HolderCounts(s.phases, task);
    case Settle(task, _) => HolderCounts(s.phases, task);
    case Abort =>
  }

  // ---------------------------------------------------------------- how a task settles

  predicate Ended(s: State, task: nat, fulfilled: bool) {
    task < |s.phases| && s.phases[task] == Settled(fulfilled)
  }

  /** Rejected without its read. */
  predicate Unread(s: State, task: nat) {
    Ended(s, task, false) && task !in s.begun
  }

  lemma StepEnds(s: State, event: Event, task: nat)
    requires Valid(s) && Enabled(s, event)
    ensures Ended(Step(s, event), task, true) <==> Ended(s, task, true) || event == Settle(task, true)
    ensures Unread(Step(s, event), task) ==> Unread(s, task) || s.aborted
    ensures Step(s, event).aborted <==> s.aborted || event.Abort?
  {
    match event
    case Resume(other) => HolderCounts(s.phases, other);
    case Settle(other, _) => HolderCounts(s.phases, other);
    case _ =>
  }

  lemma {:induction false} RunEnds(s: State, events: seq<Event>, task: nat)
    requires Valid(s) && Runs(s, events)
    ensures Ended(After(s, events), task, true) <==> Ended(s, task, true) || Settle(task, true) in events
    ensures Unread(After(s, events), task) ==> Unread(s, task) || After(s, events).aborted
    ensures After(s, events).aborted <==> s.aborted || Abort in events
    decreases |events|
  {
    if events != [] {
      StepValid(s, events[0]);
      StepEnds(s, events[0], task);
      RunEnds(Step(s, events[0]), events[1..], task);
      assert events == [events[0]] + events[1..];
    }
  }

  /**
   In every run a task is fulfilled exactly when its own read was; and only an abort rejects a task
   without having it read.
   */
  lemma SettlesAsRead(concurrency: nat, prefetch: seq<Args>, events: seq<Event>, task: nat)
    requires concurrency >= 1 && Runs(Initial(concurrency, prefetch), events)
    ensures var s := After(Initial(concurrency, prefetch), events);
            && (Ended(s, task, true) <==> Settle(task, true) in events)
            && (Ended(s, task, false) && task !in s.begun ==> Abort in events)
  {
    NoneSettledAtFirst(Idle(concurrency), prefetch);
    RunEnds(Initial(concurrency, prefetch), events, task);
  }

  predicate NoneSettled(s: State) {
    forall task :: 0 <= task < |s.phases| ==> !s.phases[task].Settled?
  }

  lemma {:induction false} NoneSettledAtFirst(s: State, prefetch: seq<Args>)
    requires NoneSettled(s)
    ensures NoneSettled(Prefetches(s, prefetch))
  {
    if prefetch != [] {
      NoneSettledAtFirst(s, prefetch[..|prefetch| - 1]);
    }
  }

  // ---------------------------------------------------------------- every task settles

  ghost predicate Internal(event: Event) {
    event.Resume? || event.Settle?
  }

  /** Steps a task still has to take. */
  function Distance(phase: Phase): nat {
    match phase
    case Queued => 3
    case Granted => 2
    case Reading => 1
    case Settled(_) => 0
  }

  function Work(phases: seq<Phase>): nat {
    if phases == [] then 0 else Work(phases[..|phases| - 1]) + Distance(phases[|phases| - 1])
  }

  lemma {:induction false} WorkUpdate(phases: seq<Phase>, task: nat, phase: Phase)
    requires task < |phases|
    ensures Work(phases[task := phase]) == Work(phases) - Distance(phases[task]) + Distance(phase)
  {
    var n := |phases| - 1;
    if task == n {
      assert phases[task := phase][..n] == phases[..n];
    } else {
      WorkUpdate(phases[..n], task, phase);
      assert phases[task := phase][..n] == phases[..n][task := phase];
    }
  }

  lemma StepDoesWork(s: State, event: Event)
    requires Valid(s) && Enabled(s, event) && Internal(event)
    ensures Work(Step(s, event).phases) < Work(s.phases)
  {
    HolderCounts(s.phases, event.task);
    if event.Resume? && !s.aborted {
      WorkUpdate(s.phases, event.task, Reading);
    } else {
      var phase := if event.Settle? then Settled(event.fulfilled) else Settled(false);
      WorkUpdate(s.phases, event.task, phase);
      if s.waiting != [] {
        WorkUpdate(s.phases[event.task := phase], s.waiting[0], Granted);
      }
    }
  }

  /** Without new requests only boundedly many steps are left, in any order. */
  lemma {:induction false} StepsAreBounded(s: State, events: seq<Event>)
    requires Valid(s) && Runs(s, events) && forall i :: 0 <= i < |events| ==> Internal(events[i])
    ensures |events| + Work(After(s, events).phases) <= Work(s.phases)
    decreases |events|
  {
    if events != [] {
      StepValid(s, events[0]);
      StepDoesWork(s, events[0]);
      StepsAreBounded(Step(s, events[0]), events[1..]);
    }
  }

  lemma {:induction false} SomeHolder(phases: seq<Phase>) returns (task: nat)
    requires Holders(phases) > 0
    ensures task < |phases| && Holds(phases[task]) == 1
  {
    var n := |phases| - 1;
    if Holds(phases[n]) == 1 {
      task := n;
    } else {
      task := SomeHolder(phases[..n]);
    }
  }

  /**
   No deadlock: while a task is unsettled, some task holds a slot and can take its next step
   as soon as its read, if it runs one, settles. So a run in which nothing is left to do has
   settled every task.
   */
  lemma UnsettledCanProceed(s: State, task: nat) returns (event: Event)
    requires Valid(s) && task < |s.phases| && !s.phases[task].Settled?
    ensures Internal(event) && Enabled(s, event)
  {
    if s.phases[task].Granted? {
      event := Resume(task);
    } else if s.phases[task].Reading? {
      event := Settle(task, true);
    } else {
      assert s.waiting != [];
      var holder := SomeHolder(s.phases);
      event := if s.phases[holder].Granted? then Resume(holder) else Settle(holder, true);
    }
  }

  /** From any state all tasks can be driven to settle, without a new request. */
  lemma {:induction false} AllSettleEventually(s: State) returns (events: seq<Event>)
    requires Valid(s)
    ensures Runs(s, events) && forall i :: 0 <= i < |events| ==> Internal(events[i])
    ensures ClosedFor(After(s, events), |s.phases|)
    decreases Work(s.phases)
  {
    if task :| 0 <= task < |s.phases| && !s.phases[task].Settled? {
      var event := UnsettledCanProceed(s, task);
      StepValid(s, event);
      StepDoesWork(s, event);
      StepIsLater(s, event);
      var rest := AllSettleEventually(Step(s, event));
      events := [event] + rest;
      assert events[1..] == rest;
    } else {
      events := [];
    }
  }

  /** The task that answers a request was started for its arguments. */
  lemma RequestHasTask(s: State, args: Args)
    requires Valid(s)
    ensures var task := if args in s.prefetched then s.prefetched[args] else |s.phases|;
            task < |Step(s, Request(args)).started| && Step(s, Request(args)).started[task] == args
  {
  }

  // ---------------------------------------------------------------- the reader

  /** The reader as the script keeps it: a counter, a queue and a map that its callbacks update. */
  class PrefetchedHelpReader {
    const concurrency: nat
    var active: nat
    var waiting: seq<nat>
    var phases: seq<Phase>
    var started: seq<Args>
    var aborted: bool
    var prefetched: map<Args, nat>
    ghost var granted: seq<nat>
    ghost var begun: seq<nat>
    ghost var requests: seq<Args>
    ghost var served: seq<nat>

    ghost function Now(): State
      reads this
    {
      State(concurrency, active, waiting, phases, started, aborted, prefetched, granted, begun, requests, served)
    }

    constructor (prefetch: seq<Args>, concurrency: nat)
      requires concurrency >= 1
      ensures Now() == Initial(concurrency, prefetch)
    {
      this.concurrency := concurrency;
      active, waiting, phases, started, aborted, prefetched := 0, [], [], [], false, map[];
      granted, begun, requests, served := [], [], [], [];
      new;
      var n := 0;
      assert prefetch[..0] == [];
      while n < |prefetch|
        invariant n <= |prefetch| && this.concurrency == concurrency
        invariant Now() == Prefetches(Idle(concurrency), prefetch[..n])
      {
        assert prefetch[..n + 1][..n] == prefetch[..n];
        var task := Start(prefetch[n]);
        prefetched := prefetched[prefetch[n] := task];
        n := n + 1;
      }
      assert prefetch[..n] == prefetch;
    }

    /** A reader, or the error for a concurrency that is not a safe integer of at least one. */
    static method Create(prefetch: seq<Args>, concurrency: int) returns (r: Result<PrefetchedHelpReader, int>)
      ensures r.Success? <==> 1 <= concurrency <= MAX_SAFE_INTEGER
      ensures r.Failure? ==> r.error == concurrency
      ensures r.Success? ==> fresh(r.value) && r.value.Now() == Initial(concurrency, prefetch)
    {
      if concurrency < 1 || concurrency > MAX_SAFE_INTEGER {
        return Failure(concurrency);
      }
      var reader := new PrefetchedHelpReader(prefetch, concurrency);
      return Success(reader);
    }

    /** Start one read: it takes a free slot or joins the queue. */
    method Start(args: Args) returns (task: nat)
      modifies this
      ensures Now() == Acquire(old(Now()), args) && task == |old(phases)|
    {
      task := |phases|;
      started := started + [args];
      if active < concurrency {
        active := active + 1;
        phases := phases + [Granted];
        granted := granted + [task];
      } else {
        waiting := waiting + [task];
        phases := phases + [Queued];
      }
    }

    /** Give the slot to the oldest waiter, or free it. */
    method ReleaseSlot()
      requires waiting == [] ==> active > 0
      requires waiting != [] ==> waiting[0] < |phases|
      modifies this
      ensures Now() == Release(old(Now()))
    {
      if |waiting| == 0 {
        active := active - 1;
      } else {
        var next := waiting[0];
        waiting := waiting[1..];
        phases := phases[next := Granted];
        granted := granted + [next];
      }
    }

    /** Serve a prefetched read once, or start a read of its own for the request. */
    method ReadHelp(args: Args) returns (task: nat)
      requires Valid(Now())
      modifies this
      ensures Now() == Step(old(Now()), Request(args)) && Valid(Now())
      ensures task == if args in old(prefetched) then old(prefetched)[args] else |old(phases)|
      ensures task < |started| && started[task] == args
    {
      StepValid(Now(), Request(args));
      RequestHasTask(Now(), args);
      if args in prefetched {
        task := prefetched[args];
        prefetched := prefetched - {args};
      } else {
        task := Start(args);
      }
      requests, served := requests + [args], served + [task];
    }

    /** A task continues with its slot: it calls `read` with its arguments, unless the reader was closed. */
    method Resume(task: nat) returns (called: Option<Args>)
      requires Valid(Now()) && Enabled(Now(), Event.Resume(task))
      modifies this
      ensures Now() == Step(old(Now()), Event.Resume(task)) && Valid(Now())
      ensures called == if old(aborted) then None else Some(started[task])
    {
      StepValid(Now(), Event.Resume(task));
      HolderCounts(phases, task);
      if aborted {
        called := None;
        SettleKeepsSlots(Now(), task, false);
        phases := phases[task := Settled(false)];
        ReleaseSlot();
      } else {
        called := Some(started[task]);
        phases := phases[task := Reading];
        begun := begun + [task];
      }
    }

    /** A running read settles and passes its slot on. */
    method ReadSettled(task: nat, fulfilled: bool)
      requires Valid(Now()) && Enabled(Now(), Event.Settle(task, fulfilled))
      modifies this
      ensures Now() == Step(old(Now()), Event.Settle(task, fulfilled)) && Valid(Now())
    {
      StepValid(Now(), Event.Settle(task, fulfilled));
      SettleKeepsSlots(Now(), task, fulfilled);
      phases := phases[task := Settled(fulfilled)];
      ReleaseSlot();
    }

    /** Abort; the caller then awaits the `started` tasks. */
    method Close() returns (started: nat)
      requires Valid(Now())
      modifies this
      ensures Now() == Step(old(Now()), Abort) && Valid(Now()) && started == |phases|
    {
      StepValid(Now(), Abort);
      aborted := true;
      started := |phases|;
    }
  }
}
