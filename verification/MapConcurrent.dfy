/**
 A list mapped by a bounded number of workers that share one position.

 A worker runs without interruption until it awaits an operation, so one event is the stretch of
 one worker from its start, or from the settling of its operation, to its next await.
 */
module MapConcurrent {
  import opened Outcomes

  datatype Worker =
    | Ready
    | Running(index: nat)
    | Stopped(index: nat)
    | Finished
    | Failed(index: nat)

  datatype State<R> = State(next: nat, results: map<nat, R>, workers: seq<Worker>)

  datatype Event<R> = Start(worker: nat) | Settle(worker: nat, outcome: Option<R>)

  function WorkerCount(jobs: int, n: nat): nat {
    if jobs <= 0 then 0 else if jobs < n then jobs else n
  }

  function Initial<V, R>(values: seq<Option<V>>, jobs: int): State<R> {
    State(0, map[], seq(WorkerCount(jobs, |values|), _ => Ready))
  }

  /** Take the next value: run its operation, stop at an undefined one, or finish at the end of the list. */
  function Claim<V, R>(values: seq<Option<V>>, s: State<R>, w: nat): State<R>
    requires w < |s.workers|
  {
    if s.next >= |values| then s.(workers := s.workers[w := Finished])
    else if values[s.next].None? then s.(next := s.next + 1, workers := s.workers[w := Stopped(s.next)])
    else s.(next := s.next + 1, workers := s.workers[w := Running(s.next)])
  }

  predicate Enabled<R(==)>(s: State<R>, e: Event<R>) {
    e.worker < |s.workers| &&
    match e
    case Start(w) => s.workers[w].Ready?
    case Settle(w, _) => s.workers[w].Running?
  }

  function Step<V, R>(values: seq<Option<V>>, s: State<R>, e: Event<R>): State<R>
    requires Enabled(s, e)
  {
    match e
    case Start(w) => Claim(values, s, w)
    case Settle(w, outcome) =>
      var i := s.workers[w].index;
      match outcome
      case None => s.(workers := s.workers[w := Failed(i)])
      case Some(r) => Claim(values, s.(results := s.results[i := r]), w)
  }

  // ---------------------------------------------------------------- counting

  function Undefined<V>(values: seq<Option<V>>): nat {
    if values == [] then 0
    else Undefined(values[..|values| - 1]) + if values[|values| - 1].None? then 1 else 0
  }

  function StoppedCount(workers: seq<Worker>): nat {
    if workers == [] then 0
    else StoppedCount(workers[..|workers| - 1]) + if workers[|workers| - 1].Stopped? then 1 else 0
  }

  lemma {:induction false} StoppedAfter(workers: seq<Worker>, w: nat, now: Worker)
    requires w < |workers| && !workers[w].Stopped?
    ensures StoppedCount(workers[w := now]) == StoppedCount(workers) + if now.Stopped? then 1 else 0
    ensures StoppedCount(workers) < |workers|
  {
    var n := |workers| - 1;
    if w < n {
      StoppedAfter(workers[..n], w, now);
      assert workers[w := now][..n] == workers[..n][w := now];
    } else {
      assert workers[w := now][..n] == workers[..n];
      StoppedAtMost(workers[..n]);
    }
  }

  lemma {:induction false} StoppedAtMost(workers: seq<Worker>)
    ensures StoppedCount(workers) <= |workers|
    ensures StoppedCount(workers) == |workers| <==> forall w :: 0 <= w < |workers| ==> workers[w].Stopped?
  {
    if workers != [] {
      StoppedAtMost(workers[..|workers| - 1]);
    }
  }

  lemma {:induction false} NoneStopped(workers: seq<Worker>)
    requires forall w :: 0 <= w < |workers| ==> workers[w].Ready?
    ensures StoppedCount(workers) == 0
  {
    if workers != [] {
      NoneStopped(workers[..|workers| - 1]);
    }
  }

  lemma UndefinedNext<V>(values: seq<Option<V>>, i: nat)
    requires i < |values|
    ensures Undefined(values[..i + 1]) == Undefined(values[..i]) + if values[i].None? then 1 else 0
  {
    assert values[..i + 1][..i] == values[..i];
  }

  lemma {:induction false} UndefinedGrows<V>(values: seq<Option<V>>, i: nat, j: nat)
    requires i <= j <= |values|
    ensures Undefined(values[..i]) <= Undefined(values[..j])
    decreases j
  {
    if i < j {
      UndefinedGrows(values, i, j - 1);
      UndefinedNext(values, j - 1);
    }
  }

  // ---------------------------------------------------------------- the invariant

  /** The worker holds an index while its operation runs, and keeps it when that failed. */
  function Holds(worker: Worker, i: nat): nat {
    if (worker.Running? || worker.Failed?) && worker.index == i then 1 else 0
  }

  function HeldCount(workers: seq<Worker>, i: nat): nat {
    if workers == [] then 0 else HeldCount(workers[..|workers| - 1], i) + Holds(workers[|workers| - 1], i)
  }

  lemma {:induction false} HeldAfter(workers: seq<Worker>, w: nat, now: Worker, i: nat)
    requires w < |workers|
    ensures HeldCount(workers[w := now], i) + Holds(workers[w], i) == HeldCount(workers, i) + Holds(now, i)
  {
    var n := |workers| - 1;
    if w < n {
      HeldAfter(workers[..n], w, now, i);
      assert workers[w := now][..n] == workers[..n][w := now];
    } else {
      assert workers[w := now][..n] == workers[..n];
    }
  }

  lemma {:induction false} NoneHeld(workers: seq<Worker>, i: nat)
    requires forall w :: 0 <= w < |workers| ==> Holds(workers[w], i) == 0
    ensures HeldCount(workers, i) == 0
  {
    if workers != [] {
      NoneHeld(workers[..|workers| - 1], i);
    }
  }

  /** How often an index was used up: by a result, by the workers that hold it, or because it was skipped. */
  function Uses<V, R>(values: seq<Option<V>>, s: State<R>, i: nat): nat {
    (if i in s.results then 1 else 0) + HeldCount(s.workers, i) +
    if i < s.next && i < |values| && values[i].None? then 1 else 0
  }

  /** Every index below the position was used exactly once, and no other. */
  ghost predicate UsedOnce<V, R>(values: seq<Option<V>>, s: State<R>) {
    forall i: nat :: Uses(values, s, i) == if i < s.next then 1 else 0
  }

  /** Workers stop only at undefined values, and finish only at the end of the list. */
  ghost predicate Valid<V, R>(values: seq<Option<V>>, s: State<R>) {
    && s.next <= |values|
    && UsedOnce(values, s)
    && (forall w :: 0 <= w < |s.workers| && s.workers[w].Finished? ==> s.next == |values|)
    && StoppedCount(s.workers) == Undefined(values[..s.next])
    && (forall i: nat :: i < s.next ==> Undefined(values[..i]) < |s.workers|)
  }

  lemma InitialValid<V, R>(values: seq<Option<V>>, jobs: int)
    ensures Valid(values, Initial<V, R>(values, jobs))
  {
    var s := Initial<V, R>(values, jobs);
    NoneStopped(s.workers);
    forall i: nat ensures Uses(values, s, i) == 0 {
      NoneHeld(s.workers, i);
    }
  }

  /** A worker that holds nothing, once its result is stored, takes the next value. */
  lemma ClaimValid<V, R>(values: seq<Option<V>>, s: State<R>, w: nat, free: State<R>)
    requires w < |s.workers| && !s.workers[w].Stopped? && !s.workers[w].Finished?
    requires free == s.(workers := s.workers[w := Ready]) && Valid(values, free)
    ensures Valid(values, Claim(values, s, w))
  {
    var t := Claim(values, s, w);
    assert t.workers == free.workers[w := t.workers[w]];
    StoppedAfter(free.workers, w, t.workers[w]);
    if s.next < |values| {
      UndefinedNext(values, s.next);
    }
    forall i: nat ensures Uses(values, t, i) == if i < t.next then 1 else 0 {
      HeldAfter(free.workers, w, t.workers[w], i);
      assert Uses(values, free, i) == if i < free.next then 1 else 0;
    }
  }

  lemma StoredValid<V, R>(values: seq<Option<V>>, s: State<R>, w: nat, r: R)
    requires Valid(values, s) && w < |s.workers| && s.workers[w].Running?
    ensures Valid(values, s.(results := s.results[s.workers[w].index := r], workers := s.workers[w := Ready]))
  {
    var k := s.workers[w].index;
    var t := s.(results := s.results[k := r], workers := s.workers[w := Ready]);
    StoppedAfter(s.workers, w, Ready);
    forall i: nat ensures Uses(values, t, i) == if i < t.next then 1 else 0 {
      HeldAfter(s.workers, w, Ready, i);
      assert Uses(values, s, i) == if i < s.next then 1 else 0;
    }
  }

  lemma FailedValid<V, R>(values: seq<Option<V>>, s: State<R>, w: nat)
    requires Valid(values, s) && w < |s.workers| && s.workers[w].Running?
    ensures Valid(values, s.(workers := s.workers[w := Failed(s.workers[w].index)]))
  {
    var t := s.(workers := s.workers[w := Failed(s.workers[w].index)]);
    StoppedAfter(s.workers, w, t.workers[w]);
    forall i: nat ensures Uses(values, t, i) == if i < t.next then 1 else 0 {
      HeldAfter(s.workers, w, t.workers[w], i);
      assert Uses(values, s, i) == if i < s.next then 1 else 0;
    }
  }

  /** Every event keeps the invariant, in whatever order the operations settle. */
  lemma StepValid<V, R>(values: seq<Option<V>>, s: State<R>, e: Event<R>)
    requires Valid(values, s) && Enabled(s, e)
    ensures Valid(values, Step(values, s, e))
  {
    match e
    case Start(w) =>
      assert s.(workers := s.workers[w := Ready]) == s;
      ClaimValid(values, s, w, s);
    case Settle(w, outcome) =>
      match outcome
      case None => FailedValid(values, s, w);
      case Some(r) =>
        var stored := s.(results := s.results[s.workers[w].index := r]);
        StoredValid(values, s, w, r);
        ClaimValid(values, stored, w, stored.(workers := s.workers[w := Ready]));
  }

  // ---------------------------------------------------------------- runs

  ghost predicate Runs<V, R>(values: seq<Option<V>>, s: State<R>, events: seq<Event<R>>)
    decreases |events|
  {
    events == [] || (Enabled(s, events[0]) && Runs(values, Step(values, s, events[0]), events[1..]))
  }

  function After<V, R>(values: seq<Option<V>>, s: State<R>, events: seq<Event<R>>): State<R>
    requires Runs(values, s, events)
    decreases |events|
  {
    if events == [] then s else After(values, Step(values, s, events[0]), events[1..])
  }

  lemma {:induction false} RunValid<V, R>(values: seq<Option<V>>, s: State<R>, events: seq<Event<R>>)
    requires Valid(values, s) && Runs(values, s, events)
    ensures Valid(values, After(values, s, events)) && |After(values, s, events).workers| == |s.workers|
    decreases |events|
  {
    if events != [] {
      StepValid(values, s, events[0]);
      RunValid(values, Step(values, s, events[0]), events[1..]);
    }
  }

  /** In every interleaving each index is taken by at most one worker, and no result is replaced. */
  lemma EachIndexOnce<V, R>(values: seq<Option<V>>, jobs: int, events: seq<Event<R>>, i: nat)
    requires Runs(values, Initial<V, R>(values, jobs), events)
    ensures var s := After(values, Initial<V, R>(values, jobs), events);
            && s.next <= |values| && HeldCount(s.workers, i) <= 1
            && (i in s.results ==> HeldCount(s.workers, i) == 0 && i < |values| && values[i].Some?)
            && (i < s.next <==> i in s.results || HeldCount(s.workers, i) == 1 || (i < s.next && values[i].None?))
  {
    var s := After(values, Initial<V, R>(values, jobs), events);
    InitialValid<V, R>(values, jobs);
    RunValid(values, Initial<V, R>(values, jobs), events);
    assert Uses(values, s, i) == if i < s.next then 1 else 0;
  }

  /** All workers ended, and no operation failed. */
  predicate AllEnded<R>(s: State<R>) {
    forall w :: 0 <= w < |s.workers| ==> s.workers[w].Stopped? || s.workers[w].Finished?
  }

  /**
   The results when all workers ended without a failure: the defined values that have fewer
   undefined ones before them than there are workers, in whatever order the operations settled.
   */
  lemma ResultsOfAllEnded<V, R>(values: seq<Option<V>>, jobs: int, events: seq<Event<R>>, i: nat)
    requires Runs(values, Initial<V, R>(values, jobs), events)
    requires AllEnded(After(values, Initial<V, R>(values, jobs), events))
    ensures i in After(values, Initial<V, R>(values, jobs), events).results <==>
              i < |values| && values[i].Some? && Undefined(values[..i]) < jobs
  {
    var s := After(values, Initial<V, R>(values, jobs), events);
    InitialValid<V, R>(values, jobs);
    RunValid(values, Initial<V, R>(values, jobs), events);
    EachIndexOnce(values, jobs, events, i);
    NoneHeld(s.workers, i);
    StoppedAtMost(s.workers);
    if i < |values| {
      UndefinedAtMost(values[..i]);
    }
    if s.next <= i < |values| {
      UndefinedGrows(values, s.next, i);
    }
  }

  lemma {:induction false} UndefinedAtMost<V>(values: seq<Option<V>>)
    ensures Undefined(values) <= |values|
  {
    if values != [] {
      UndefinedAtMost(values[..|values| - 1]);
    }
  }

  /**
   An operation that succeeds gives the result of its own index, whatever happens afterwards, and
   no more operations run at once than there are jobs.
   */
  lemma SettledStays<V, R>(values: seq<Option<V>>, jobs: int, events: seq<Event<R>>, w: nat, r: R,
                           later: seq<Event<R>>)
    requires Runs(values, Initial<V, R>(values, jobs), events)
    requires var s := After(values, Initial<V, R>(values, jobs), events);
             Enabled(s, Settle(w, Some(r))) && Runs(values, Step(values, s, Settle(w, Some(r))), later)
    ensures var s := After(values, Initial<V, R>(values, jobs), events);
            && |s.workers| <= (if jobs < 0 then 0 else jobs)
            && s.workers[w].index in After(values, Step(values, s, Settle(w, Some(r))), later).results
            && After(values, Step(values, s, Settle(w, Some(r))), later).results[s.workers[w].index] == r
  {
    var s := After(values, Initial<V, R>(values, jobs), events);
    InitialValid<V, R>(values, jobs);
    RunValid(values, Initial<V, R>(values, jobs), events);
    StepValid(values, s, Settle(w, Some(r)));
    ResultStays(values, Step(values, s, Settle(w, Some(r))), later, s.workers[w].index);
  }

  lemma {:induction false} ResultStays<V, R>(values: seq<Option<V>>, s: State<R>, events: seq<Event<R>>, i: nat)
    requires Valid(values, s) && Runs(values, s, events) && i in s.results
    ensures var t := After(values, s, events); i in t.results && t.results[i] == s.results[i]
    decreases |events|
  {
    if events != [] {
      StepValid(values, s, events[0]);
      StepKeepsResult(values, s, events[0], i);
      ResultStays(values, Step(values, s, events[0]), events[1..], i);
    }
  }

  lemma StepKeepsResult<V, R>(values: seq<Option<V>>, s: State<R>, e: Event<R>, i: nat)
    requires Valid(values, s) && Enabled(s, e) && i in s.results
    ensures var t := Step(values, s, e); i in t.results && t.results[i] == s.results[i]
  {
    if e.Settle? && s.workers[e.worker].index == i {
      assert Uses(values, s, i) == if i < s.next then 1 else 0;
      OneHeld(s.workers, e.worker, i);
    }
  }

  lemma {:induction false} OneHeld(workers: seq<Worker>, w: nat, i: nat)
    requires w < |workers| && Holds(workers[w], i) == 1
    ensures HeldCount(workers, i) >= 1
  {
    if w < |workers| - 1 {
      OneHeld(workers[..|workers| - 1], w, i);
    }
  }

  lemma {:induction false} NoneUndefined<V>(values: seq<Option<V>>)
    requires forall i :: 0 <= i < |values| ==> values[i].Some?
    ensures Undefined(values) == 0
  {
    if values != [] {
      NoneUndefined(values[..|values| - 1]);
    }
  }

  /** With a job and no undefined value, every value has its result. */
  lemma EveryValueMapped<V, R>(values: seq<Option<V>>, jobs: int, events: seq<Event<R>>)
    requires jobs >= 1 && forall i :: 0 <= i < |values| ==> values[i].Some?
    requires Runs(values, Initial<V, R>(values, jobs), events)
    requires AllEnded(After(values, Initial<V, R>(values, jobs), events))
    ensures forall i: nat :: i in After(values, Initial<V, R>(values, jobs), events).results <==> i < |values|
  {
    forall i: nat
      ensures i in After(values, Initial<V, R>(values, jobs), events).results <==> i < |values|
    {
      ResultsOfAllEnded(values, jobs, events, i);
      if i < |values| {
        NoneUndefined(values[..i]);
      }
    }
  }

  // ---------------------------------------------------------------- the shared state

  /** The position, the results and the workers that the concurrent functions share. */
  class Mapping<V, R> {
    const values: seq<Option<V>>
    var next: nat
    var results: map<nat, R>
    var workers: seq<Worker>

    constructor (values: seq<Option<V>>, jobs: int)
      ensures this.values == values && Now() == Initial<V, R>(values, jobs)
    {
      this.values := values;
      next, results := 0, map[];
      workers := seq(WorkerCount(jobs, |values|), _ => Ready);
    }

    function Now(): State<R>
      reads this
    {
      State(next, results, workers)
    }

    /** A worker's turn at the head of its loop. */
    method TakeNext(w: nat)
      requires w < |workers|
      modifies this
      ensures Now() == Claim(values, old(Now()), w)
    {
      if next < |values| {
        var index := next;
        next := next + 1;
        workers := workers[w := if values[index].None? then Stopped(index) else Running(index)];
      } else {
        workers := workers[w := Finished];
      }
    }

    method Settled(w: nat, outcome: Option<R>)
      requires Enabled(Now(), Settle(w, outcome))
      modifies this
      ensures Now() == Step(values, old(Now()), Settle(w, outcome))
    {
      var index := workers[w].index;
      match outcome {
        case None =>
          workers := workers[w := Failed(index)];
        case Some(r) =>
          results := results[index := r];
          TakeNext(w);
      }
    }
  }
}
