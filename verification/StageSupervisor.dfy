/**
 The supervision of stages that run until they are told to end: an exit nobody asked for is
 reported, and a stop is a sequence of signals, each followed by a wait.

 `stop` runs in blocks between its awaits; exits, their callbacks and the grace timer
 interleave with those blocks in any order the promises allow.
 */
module StageSupervisor {
  import opened Outcomes

  datatype Signal = SIGINT | SIGTERM | SIGKILL | OtherSignal(name: string)

  type ExitCode = Option<int>

  /** A signal that reached a running stage, with the round of the stop and the grace periods the stage had outlived. */
  datatype Delivery = Delivery(signal: Signal, round: nat, outlived: nat)

  /** Where `stop` is: not called, waiting out a round, waiting after the last signal, or resolved. */
  datatype Phase = Watching | Grace(round: nat, awaited: set<nat>) | Final(awaited: set<nat>) | Stopped

  /** `late` holds the stages added after the stop began; `received`, `outlived` and `stale` record what happened. */
  datatype State = State(
    live: set<nat>,
    stopping: bool,
    phase: Phase,
    plan: seq<Option<Signal>>,
    added: set<nat>,
    late: set<nat>,
    exited: map<nat, ExitCode>,
    received: map<nat, seq<Delivery>>,
    outlived: map<nat, nat>,
    stale: seq<(nat, ExitCode)>)

  datatype Event =
    | Add(stage: nat)
    | Exit(stage: nat, code: ExitCode)
    | ExitCallback(stage: nat)
    | Stop(signal: Option<Signal>)
    | GraceElapsed
    | AwaitedExited

  const INITIAL: State := State({}, false, Watching, [], {}, {}, map[], map[], map[], [])

  /** The signals of the rounds before the last one. */
  function Escalation(signal: Option<Signal>): seq<Option<Signal>> {
    [signal] + (if signal != Some(SIGTERM) then [Some(SIGTERM)] else [])
  }

  /** Signal every live stage; delivery to a stage that has exited is a no-op. */
  function KillLive(s: State, signal: Signal, round: nat): State {
    s.(received := map stage | stage in s.received ::
         if stage in s.live && stage !in s.exited && stage in s.outlived
         then s.received[stage] + [Delivery(signal, round, s.outlived[stage])]
         else s.received[stage])
  }

  /** The block of `stop` that begins round `round`. */
  function BeginRound(s: State, round: nat): State
    requires round <= |s.plan|
  {
    if round < |s.plan| then
      if s.live == {} then s.(phase := Stopped)
      else
        var killed := if s.plan[round].Some? then KillLive(s, s.plan[round].value, round) else s;
        killed.(phase := Grace(round, s.live))
    else
      KillLive(s, SIGKILL, round).(phase := Final(s.live))
  }

  /** The state in which the grace timer's continuation runs. */
  function AfterGrace(s: State): State {
    s.(outlived := map stage | stage in s.outlived ::
         if stage in s.exited then s.outlived[stage] else s.outlived[stage] + 1)
  }

  predicate Enabled(s: State, event: Event) {
    match event
    case Add(stage) => stage !in s.added
    case Exit(stage, _) => stage in s.added && stage !in s.exited
    case ExitCallback(stage) => stage in s.exited && stage in s.live
    case Stop(_) => s.phase == Watching
    case GraceElapsed => s.phase.Grace?
    // The callback that removes a stage was attached before the one that `stop` awaits.
    case AwaitedExited =>
      (s.phase.Grace? || s.phase.Final?) && s.phase.awaited !! s.live && s.phase.awaited <= s.exited.Keys
  }

  function Step(s: State, event: Event): State
    requires Enabled(s, event) && (s.phase.Grace? ==> s.phase.round < |s.plan|)
  {
    match event
    case Add(stage) =>
      s.(live := s.live + {stage}, added := s.added + {stage},
         late := if s.stopping then s.late + {stage} else s.late,
         received := s.received[stage := []], outlived := s.outlived[stage := 0])
    case Exit(stage, code) => s.(exited := s.exited[stage := code])
    case ExitCallback(stage) =>
      s.(live := s.live - {stage}, stale := if s.stopping then s.stale else s.stale + [(stage, s.exited[stage])])
    case Stop(signal) => BeginRound(s.(stopping := true, plan := Escalation(signal)), 0)
    case GraceElapsed =>
      BeginRound(AfterGrace(s), s.phase.round + 1)
    case AwaitedExited => if s.phase.Grace? then BeginRound(s, s.phase.round + 1) else s.(phase := Stopped)
  }

  // ---------------------------------------------------------------- the invariant

  /** What a stage receives in round `round` when it is still running then. */
  function RoundDelivery(plan: seq<Option<Signal>>, round: nat): seq<Delivery> {
    if round < |plan| then
      if plan[round].Some? then [Delivery(plan[round].value, round, round)] else []
    else [Delivery(SIGKILL, round, round)]
  }

  /** The deliveries of the first `rounds` rounds. */
  function Deliveries(plan: seq<Option<Signal>>, rounds: nat): seq<Delivery> {
    if rounds == 0 then [] else Deliveries(plan, rounds - 1) + RoundDelivery(plan, rounds - 1)
  }

  /** The number of rounds begun. */
  function Rounds(s: State): nat {
    match s.phase
    case Watching => 0
    case Grace(round, _) => round + 1
    case Final(_) => |s.plan| + 1
    case Stopped => 0
  }

  /**
   A stage added before the stop that is still running: it has had every signal so far, each after
   its grace periods.
   */
  ghost predicate RunningStage(s: State, stage: nat)
    requires stage in s.received && stage in s.outlived
  {
    && stage in s.live
    && s.phase != Stopped
    && s.received[stage] == Deliveries(s.plan, Rounds(s))
    && s.outlived[stage] == (if Rounds(s) == 0 then 0 else Rounds(s) - 1)
    && (s.phase.Grace? || s.phase.Final? ==> stage in s.phase.awaited)
  }

  ghost predicate Valid(s: State) {
    && s.live <= s.added && s.late <= s.added && s.exited.Keys <= s.added
    && s.received.Keys == s.added && s.outlived.Keys == s.added
    && (s.stopping <==> s.phase != Watching) && (!s.stopping ==> s.late == {} && s.plan == [])
    && (s.phase.Grace? ==> s.phase.round < |s.plan|)
    && (s.phase.Grace? || s.phase.Final? ==> s.phase.awaited <= s.added)
    && (forall stage :: stage in s.added - s.live ==> stage in s.exited)
    && (forall stage :: stage in s.added - s.late && stage !in s.exited ==> RunningStage(s, stage))
    && (forall stage :: stage in s.added - s.late && stage in s.exited ==>
          s.received[stage] <= Deliveries(s.plan, |s.plan| + 1))
    && (!s.stopping ==> forall stage :: stage in s.added ==> s.received[stage] == [])
  }

  lemma {:induction false} DeliveriesGrow(plan: seq<Option<Signal>>, m: nat, n: nat)
    requires m <= n
    ensures Deliveries(plan, m) <= Deliveries(plan, n)
  {
    if m < n {
      DeliveriesGrow(plan, m, n - 1);
    }
  }

  /** What holds when the block of round `round` is about to run. */
  ghost predicate AtRound(s: State, round: nat) {
    && round <= |s.plan| && s.stopping
    && s.live <= s.added && s.late <= s.added && s.exited.Keys <= s.added
    && s.received.Keys == s.added && s.outlived.Keys == s.added
    && (forall stage :: stage in s.added - s.live ==> stage in s.exited)
    && (forall stage :: stage in s.added - s.late && stage !in s.exited ==>
          stage in s.live && s.received[stage] == Deliveries(s.plan, round) && s.outlived[stage] == round)
    && (forall stage :: stage in s.added - s.late && stage in s.exited ==>
          s.received[stage] <= Deliveries(s.plan, |s.plan| + 1))
  }

  lemma LastRoundValid(s: State)
    requires AtRound(s, |s.plan|)
    ensures Valid(BeginRound(s, |s.plan|))
  {
    var t := BeginRound(s, |s.plan|);
    forall stage | stage in s.added - s.late && stage !in s.exited ensures RunningStage(t, stage) {
      assert stage in s.live;
    }
  }

  lemma EarlierRoundValid(s: State, round: nat)
    requires AtRound(s, round) && round < |s.plan|
    ensures Valid(BeginRound(s, round))
  {
    var t := BeginRound(s, round);
    forall stage | stage in s.added - s.late && stage !in s.exited ensures RunningStage(t, stage) {
      assert stage in s.live;
    }
  }

  lemma BeginRoundValid(s: State, round: nat)
    requires AtRound(s, round)
    ensures Valid(BeginRound(s, round))
  {
    if round < |s.plan| {
      EarlierRoundValid(s, round);
    } else {
      LastRoundValid(s);
    }
  }

  lemma ExitValid(s: State, stage: nat, code: ExitCode)
    requires Valid(s) && Enabled(s, Exit(stage, code))
    ensures Valid(Step(s, Exit(stage, code)))
  {
    DeliveriesGrow(s.plan, Rounds(s), |s.plan| + 1);
    var t := Step(s, Exit(stage, code));
    forall other | other in t.added - t.late && other !in t.exited ensures RunningStage(t, other) {
      assert RunningStage(s, other);
    }
    if stage !in s.late {
      assert RunningStage(s, stage);
    }
  }

  lemma AddValid(s: State, stage: nat)
    requires Valid(s) && Enabled(s, Add(stage))
    ensures Valid(Step(s, Add(stage)))
  {
    var t := Step(s, Add(stage));
    forall other | other in t.added - t.late && other !in t.exited ensures RunningStage(t, other) {
      if other != stage {
        assert RunningStage(s, other);
      }
    }
  }

  lemma ExitCallbackValid(s: State, stage: nat)
    requires Valid(s) && Enabled(s, ExitCallback(stage))
    ensures Valid(Step(s, ExitCallback(stage)))
  {
    var t := Step(s, ExitCallback(stage));
    forall other | other in t.added - t.late && other !in t.exited ensures RunningStage(t, other) {
      assert RunningStage(s, other);
    }
  }

  lemma GraceReachesRound(s: State)
    requires Valid(s) && s.phase.Grace?
    ensures AtRound(AfterGrace(s), s.phase.round + 1)
  {
    var t := AfterGrace(s);
    forall stage | stage in t.added - t.late && stage !in t.exited
      ensures stage in t.live && t.received[stage] == Deliveries(t.plan, s.phase.round + 1)
      ensures t.outlived[stage] == s.phase.round + 1
    {
      assert RunningStage(s, stage);
    }
  }

  lemma AwaitedAllExited(s: State, stage: nat)
    requires Valid(s) && Enabled(s, AwaitedExited) && stage in s.added - s.late
    ensures stage in s.exited
  {
    var awaited := s.phase.awaited;
    assert stage in s.exited || (stage in s.live && stage in awaited);
  }

  lemma AwaitedReachesRound(s: State)
    requires Valid(s) && Enabled(s, AwaitedExited) && s.phase.Grace?
    ensures AtRound(s, s.phase.round + 1)
  {
    forall stage | stage in s.added - s.late ensures stage in s.exited {
      AwaitedAllExited(s, stage);
    }
  }

  lemma AwaitedInGraceValid(s: State)
    requires Valid(s) && Enabled(s, AwaitedExited) && s.phase.Grace?
    ensures Valid(Step(s, AwaitedExited))
  {
    var round := s.phase.round + 1;
    AwaitedReachesRound(s);
    AwaitedStepIsRound(s, round);
    BeginRoundValid(s, round);
  }

  lemma AwaitedStepIsRound(s: State, round: nat)
    requires Enabled(s, AwaitedExited) && s.phase.Grace? && round == s.phase.round + 1 <= |s.plan|
    ensures Step(s, AwaitedExited) == BeginRound(s, round)
  {
  }

  lemma AwaitedInFinalValid(s: State)
    requires Valid(s) && Enabled(s, AwaitedExited) && s.phase.Final?
    ensures Valid(Step(s, AwaitedExited))
  {
    forall stage | stage in s.added - s.late ensures stage in s.exited {
      AwaitedAllExited(s, stage);
    }
  }

  lemma StopReachesRound(s: State, signal: Option<Signal>)
    requires Valid(s) && s.phase == Watching
    ensures AtRound(s.(stopping := true, plan := Escalation(signal)), 0)
  {
    var t := s.(stopping := true, plan := Escalation(signal));
    forall stage | stage in t.added - t.late && stage !in t.exited
      ensures stage in t.live && t.received[stage] == [] && t.outlived[stage] == 0
    {
      assert RunningStage(s, stage);
    }
  }

  lemma StopValid(s: State, signal: Option<Signal>)
    requires Valid(s) && s.phase == Watching
    ensures Valid(Step(s, Stop(signal)))
  {
    StopReachesRound(s, signal);
    BeginRoundValid(s.(stopping := true, plan := Escalation(signal)), 0);
  }

  lemma GraceElapsedValid(s: State)
    requires Valid(s) && s.phase.Grace?
    ensures Valid(Step(s, GraceElapsed))
  {
    GraceReachesRound(s);
    GraceStepIsRound(s);
    BeginRoundValid(AfterGrace(s), s.phase.round + 1);
  }

  lemma GraceStepIsRound(s: State)
    requires s.phase.Grace? && s.phase.round < |s.plan|
    ensures Step(s, GraceElapsed) == BeginRound(AfterGrace(s), s.phase.round + 1)
  {
  }

  lemma StepValid(s: State, event: Event)
    requires Valid(s) && Enabled(s, event)
    ensures Valid(Step(s, event))
  {
    match event
    case Add(stage) => AddValid(s, stage);
    case Exit(stage, code) => ExitValid(s, stage, code);
    case ExitCallback(stage) => ExitCallbackValid(s, stage);
    case Stop(signal) => StopValid(s, signal);
    case GraceElapsed => GraceElapsedValid(s);
    case AwaitedExited =>
      if s.phase.Grace? {
        AwaitedInGraceValid(s);
      } else {
        AwaitedInFinalValid(s);
      }
  }

  // ---------------------------------------------------------------- whole runs

  ghost predicate Runs(s: State, events: seq<Event>)
    requires Valid(s)
    decreases |events|
  {
    events != [] ==>
      && Enabled(s, events[0])
      && (StepValid(s, events[0]); Runs(Step(s, events[0]), events[1..]))
  }

  ghost function After(s: State, events: seq<Event>): (t: State)
    requires Valid(s) && Runs(s, events)
    ensures Valid(t)
    decreases |events|
  {
    if events == [] then s
    else
      StepValid(s, events[0]);
      After(Step(s, events[0]), events[1..])
  }

  /** The signals of some deliveries, in order. */
  function Signals(deliveries: seq<Delivery>): (signals: seq<Signal>)
    ensures |signals| == |deliveries|
  {
    seq(|deliveries|, i requires 0 <= i < |deliveries| => deliveries[i].signal)
  }

  /** The requested signal if any, SIGTERM unless it was the requested one, then SIGKILL. */
  function SignalPlan(signal: Option<Signal>): seq<Signal> {
    (if signal.Some? then [signal.value] else []) +
    (if signal != Some(SIGTERM) then [SIGTERM] else []) +
    [SIGKILL]
  }

  lemma DeliveriesFollowPlan(signal: Option<Signal>)
    ensures var plan := Escalation(signal); Signals(Deliveries(plan, |plan| + 1)) == SignalPlan(signal)
  {
    var plan := Escalation(signal);
    var first, second := RoundDelivery(plan, 0), RoundDelivery(plan, 1);
    assert Deliveries(plan, 0) == [];
    assert Deliveries(plan, 1) == first;
    assert Deliveries(plan, 2) == first + second;
    if |plan| == 2 {
      assert Deliveries(plan, 3) == first + second + RoundDelivery(plan, 2);
    }
  }

  lemma {:induction false} DeliveriesWaited(plan: seq<Option<Signal>>, rounds: nat, i: nat)
    requires rounds <= |plan| + 1 && i < |Deliveries(plan, rounds)|
    ensures var d := Deliveries(plan, rounds)[i];
            && d.outlived == d.round <= |plan|
            && (d.round < |plan| ==> plan[d.round] == Some(d.signal))
            && (d.round == |plan| ==> d.signal == SIGKILL)
  {
    if i < |Deliveries(plan, rounds - 1)| {
      DeliveriesWaited(plan, rounds - 1, i);
    }
  }

  /** The state in which a call of `stop` first waits. */
  ghost function StopCalled(s: State, signal: Option<Signal>): (t: State)
    requires Valid(s) && s.phase == Watching
    ensures Valid(t) && t.stopping && t.plan == Escalation(signal) && t.stale == s.stale
    ensures t.added == s.added && t.late == {}
  {
    StopValid(s, signal);
    Step(s, Stop(signal))
  }

  lemma {:induction false} PlanFixed(s: State, events: seq<Event>)
    requires Valid(s) && Runs(s, events) && s.stopping
    ensures After(s, events).stopping && After(s, events).plan == s.plan && After(s, events).stale == s.stale
    ensures After(s, events).added - After(s, events).late == s.added - s.late
    decreases |events|
  {
    if events != [] {
      StepValid(s, events[0]);
      StoppingStays(s, events[0]);
      PlanFixed(Step(s, events[0]), events[1..]);
    }
  }

  /** While stopping, no exit is reported and every new stage is late. */
  lemma StoppingStays(s: State, event: Event)
    requires Valid(s) && Enabled(s, event) && s.stopping
    ensures Step(s, event).stopping && Step(s, event).plan == s.plan && Step(s, event).stale == s.stale
    ensures Step(s, event).added - Step(s, event).late == s.added - s.late
  {
  }

  /**
   Escalation, in every run: each stage added before the stop receives a prefix of the
   requested signal, SIGTERM and SIGKILL, in that order; each signal reaches it only after
   as many grace periods as rounds went before, so the final SIGKILL only after all of them.
   */
  lemma EscalatesInOrder(s: State, signal: Option<Signal>, events: seq<Event>, stage: nat)
    requires Valid(s) && s.phase == Watching && Runs(StopCalled(s, signal), events)
    requires stage in s.added
    ensures var t := After(StopCalled(s, signal), events);
            && stage in t.received
            && Signals(t.received[stage]) <= SignalPlan(signal)
            && forall i :: 0 <= i < |t.received[stage]| ==>
                 var d := t.received[stage][i];
                 && d.outlived == d.round <= |t.plan|
                 && (d.round == |t.plan| ==> d.signal == SIGKILL && d.outlived == |Escalation(signal)|)
  {
    var begun := StopCalled(s, signal);
    PlanFixed(begun, events);
    var t := After(begun, events);
    assert stage in t.added - t.late;
    ReceivedPrefix(t, stage);
    DeliveriesFollowPlan(signal);
    var all := Deliveries(t.plan, |t.plan| + 1);
    forall i | 0 <= i < |t.received[stage]| ensures t.received[stage][i] == all[i] && Signals(all)[i] == all[i].signal {
    }
    forall i | 0 <= i < |t.received[stage]|
      ensures var d := t.received[stage][i];
              d.outlived == d.round <= |t.plan| && (d.round == |t.plan| ==> d.signal == SIGKILL)
    {
      DeliveriesWaited(t.plan, |t.plan| + 1, i);
    }
  }

  lemma ReceivedPrefix(s: State, stage: nat)
    requires Valid(s) && stage in s.added - s.late
    ensures s.received[stage] <= Deliveries(s.plan, |s.plan| + 1)
  {
    if stage !in s.exited {
      assert RunningStage(s, stage);
      DeliveriesGrow(s.plan, Rounds(s), |s.plan| + 1);
    }
  }

  // ---------------------------------------------------------------- which stages a stop waits for

  /** The last block of a stop has not begun: no SIGKILL yet, and not resolved. */
  predicate BeforeLastBlock(s: State) {
    s.phase.Watching? || s.phase.Grace?
  }

  predicate EndsInKill(deliveries: seq<Delivery>) {
    deliveries != [] && deliveries[|deliveries| - 1].signal == SIGKILL
  }

  /** The stop counts on this stage: it resolves with the stage exited, and kills it when it still runs in the end. */
  ghost predicate CountedOn(s: State, stage: nat) {
    && stage in s.added && stage in s.received
    && (s.phase.Final? ==>
          stage in s.exited || (stage in s.phase.awaited && EndsInKill(s.received[stage])))
    && (s.phase.Stopped? ==> stage in s.exited)
  }

  lemma RoundCountsOn(s: State, round: nat, stage: nat)
    requires round <= |s.plan| && stage in s.added && s.received.Keys == s.added && s.outlived.Keys == s.added
    requires stage in s.live || stage in s.exited
    ensures CountedOn(BeginRound(s, round), stage)
  {
  }

  lemma StepCountsOn(s: State, event: Event, stage: nat)
    requires Valid(s) && Enabled(s, event) && CountedOn(s, stage)
    ensures CountedOn(Step(s, event), stage)
  {
    match event
    case Stop(signal) => RoundCountsOn(s.(stopping := true, plan := Escalation(signal)), 0, stage);
    case GraceElapsed => RoundCountsOn(AfterGrace(s), s.phase.round + 1, stage);
    case AwaitedExited =>
      if s.phase.Grace? {
        RoundCountsOn(s, s.phase.round + 1, stage);
      }
    case _ =>
  }

  lemma {:induction false} RunCountsOn(s: State, events: seq<Event>, stage: nat)
    requires Valid(s) && Runs(s, events) && CountedOn(s, stage)
    ensures CountedOn(After(s, events), stage)
    decreases |events|
  {
    if events != [] {
      StepValid(s, events[0]);
      StepCountsOn(s, events[0], stage);
      RunCountsOn(Step(s, events[0]), events[1..], stage);
    }
  }

  /**
   In every run that resolves, each stage added before the last block of the stop has exited:
   also one added during a grace period, which is signalled and awaited like the others.
   */
  lemma StopWaitsForStages(s: State, events: seq<Event>)
    requires Valid(s) && BeforeLastBlock(s) && Runs(s, events) && After(s, events).phase == Stopped
    ensures s.added <= After(s, events).exited.Keys
  {
    forall stage | stage in s.added ensures stage in After(s, events).exited {
      RunCountsOn(s, events, stage);
    }
  }

  /** A stage still running once the last block has begun was sent SIGKILL. */
  lemma LastBlockKills(s: State, events: seq<Event>, stage: nat)
    requires Valid(s) && BeforeLastBlock(s) && Runs(s, events) && stage in s.added
    requires After(s, events).phase.Final? && stage !in After(s, events).exited
    ensures stage in After(s, events).received && EndsInKill(After(s, events).received[stage])
  {
    RunCountsOn(s, events, stage);
  }

  /**
   What a stop sends, in every run, to a stage added before it that still runs once the last block
   has begun: the requested signal if there is one, SIGTERM unless that was requested, and SIGKILL.
   */
  lemma SurvivorHasWholePlan(s: State, signal: Option<Signal>, events: seq<Event>, stage: nat)
    requires Valid(s) && s.phase == Watching && Runs(StopCalled(s, signal), events) && stage in s.added
    requires var t := After(StopCalled(s, signal), events); t.phase.Final? && stage !in t.exited
    ensures var t := After(StopCalled(s, signal), events);
            stage in t.received &&
            match signal
            case None => Signals(t.received[stage]) == [SIGTERM, SIGKILL]
            case Some(SIGTERM) => Signals(t.received[stage]) == [SIGTERM, SIGKILL]
            case Some(other) => Signals(t.received[stage]) == [other, SIGTERM, SIGKILL]
  {
    var begun := StopCalled(s, signal);
    PlanFixed(begun, events);
    PlanOfStop(s, signal);
    SurvivorReceived(After(begun, events), stage);
    DeliveriesFollowPlan(signal);
    PlanSpelled(signal);
  }

  lemma SurvivorReceived(s: State, stage: nat)
    requires Valid(s) && s.phase.Final? && stage in s.added - s.late && stage !in s.exited
    ensures s.received[stage] == Deliveries(s.plan, |s.plan| + 1)
  {
    assert RunningStage(s, stage);
  }

  lemma PlanSpelled(signal: Option<Signal>)
    ensures SignalPlan(signal) ==
            match signal
            case None => [SIGTERM, SIGKILL]
            case Some(SIGTERM) => [SIGTERM, SIGKILL]
            case Some(other) => [other, SIGTERM, SIGKILL]
  {
  }

  lemma PlanOfStop(s: State, signal: Option<Signal>)
    requires Valid(s) && s.phase == Watching
    ensures StopCalled(s, signal).plan == Escalation(signal)
  {
  }

  /** Before its last block, a stop that finds no stage left running resolves at once, and signals nobody. */
  lemma NothingLeftResolves(s: State, event: Event)
    requires Valid(s) && Enabled(s, event) && s.live == {}
    requires event.Stop? || (s.phase.Grace? && s.phase.round + 1 < |s.plan| && event in {GraceElapsed, AwaitedExited})
    ensures Step(s, event).phase == Stopped && Step(s, event).received == s.received
  {
  }

  // ---------------------------------------------------------------- reported exits

  /** The exits whose callbacks ran before the first stop, read off the events alone. */
  ghost function ExitsBeforeStop(events: seq<Event>, codes: map<nat, ExitCode>): seq<(nat, ExitCode)> {
    if events == [] then []
    else
      match events[0]
      case Exit(stage, code) => ExitsBeforeStop(events[1..], codes[stage := code])
      case ExitCallback(stage) =>
        (if stage in codes then [(stage, codes[stage])] else []) + ExitsBeforeStop(events[1..], codes)
      case Stop(_) => []
      case _ => ExitsBeforeStop(events[1..], codes)
  }

  /** An exit is reported exactly when its callback ran before any stop, with that exit's code. */
  lemma {:induction false} ReportsExitsBeforeStop(s: State, events: seq<Event>)
    requires Valid(s) && Runs(s, events) && !s.stopping
    ensures After(s, events).stale == s.stale + ExitsBeforeStop(events, s.exited)
    decreases |events|
  {
    if events != [] {
      StepValid(s, events[0]);
      var t := Step(s, events[0]);
      if events[0].Stop? {
        StopReportsNothing(s, events[0].signal);
        PlanFixed(t, events[1..]);
      } else {
        StepReports(s, events[0]);
        ReportsExitsBeforeStop(t, events[1..]);
        Reassociate(s.stale, ReportedBy(events[0], s.exited), ExitsBeforeStop(events[1..], t.exited));
      }
    }
  }

  ghost function ReportedBy(event: Event, codes: map<nat, ExitCode>): seq<(nat, ExitCode)> {
    if event.ExitCallback? && event.stage in codes then [(event.stage, codes[event.stage])] else []
  }

  lemma StepReports(s: State, event: Event)
    requires Valid(s) && Enabled(s, event) && !s.stopping && !event.Stop?
    ensures var t := Step(s, event);
            && t.stale == s.stale + ReportedBy(event, s.exited) && !t.stopping
            && t.exited == if event.Exit? then s.exited[event.stage := event.code] else s.exited
  {
  }

  lemma Reassociate(x: seq<(nat, ExitCode)>, y: seq<(nat, ExitCode)>, z: seq<(nat, ExitCode)>)
    ensures (x + y) + z == x + (y + z)
  {
  }

  lemma StopReportsNothing(s: State, signal: Option<Signal>)
    requires Valid(s) && s.phase == Watching
    ensures Step(s, Stop(signal)).stale == s.stale && Step(s, Stop(signal)).stopping
  {
  }

  // ---------------------------------------------------------------- progress

  /** What happens without a caller: signals take effect, time passes, promises settle. */
  predicate Internal(event: Event) {
    event.Exit? || event.ExitCallback? || event.GraceElapsed? || event.AwaitedExited?
  }

  /** A stop that has not resolved is never stuck: the timer, an exit or a callback can still move it. */
  lemma UnresolvedCanProceed(s: State) returns (event: Event)
    requires Valid(s) && s.stopping && s.phase != Stopped
    ensures Enabled(s, event) && Internal(event)
    ensures event.Exit? ==> s.phase.Final? && event.stage in s.phase.awaited
  {
    if s.phase.Grace? {
      event := GraceElapsed;
    } else if stage :| stage in s.phase.awaited && stage !in s.exited {
      event := Exit(stage, None);
    } else if stage :| stage in s.phase.awaited && stage in s.live {
      event := ExitCallback(stage);
    } else {
      event := AwaitedExited;
    }
  }

  /** Blocks of the stop that are still to run. */
  function BlocksLeft(s: State): nat {
    match s.phase
    case Grace(round, _) => if round <= |s.plan| then |s.plan| - round + 1 else 0
    case Final(_) => 1
    case _ => 0
  }

  /** The exits, the callbacks and the blocks that are still to come. */
  function Work(s: State): nat {
    |s.added - s.exited.Keys| + |s.live| + BlocksLeft(s)
  }

  lemma Fewer(xs: set<nat>, x: nat)
    requires x in xs
    ensures |xs - {x}| < |xs|
  {
  }

  predicate SameStages(s: State, t: State) {
    t.added == s.added && t.exited == s.exited && t.live == s.live && t.plan == s.plan
  }

  lemma KillKeeps(s: State, signal: Signal, round: nat)
    ensures SameStages(s, KillLive(s, signal, round))
  {
  }

  lemma RoundKeeps(s: State, round: nat)
    requires round <= |s.plan|
    ensures SameStages(s, BeginRound(s, round)) && BlocksLeft(BeginRound(s, round)) <= |s.plan| - round + 1
  {
    if round < |s.plan| {
      if s.plan[round].Some? {
        KillKeeps(s, s.plan[round].value, round);
      }
    } else {
      KillKeeps(s, SIGKILL, round);
    }
  }

  lemma BlockKeeps(s: State, event: Event)
    requires Enabled(s, event) && (event.GraceElapsed? || event.AwaitedExited?) &&
             (s.phase.Grace? ==> s.phase.round < |s.plan|)
    ensures SameStages(s, Step(s, event)) && BlocksLeft(Step(s, event)) < BlocksLeft(s)
  {
    if s.phase.Grace? {
      RoundKeeps(s, s.phase.round + 1);
      RoundKeeps(AfterGrace(s), s.phase.round + 1);
    }
  }

  lemma LessWork(s: State, t: State)
    requires SameStages(s, t) && BlocksLeft(t) < BlocksLeft(s)
    ensures Work(t) < Work(s)
  {
  }

  lemma ExitDoesWork(s: State, stage: nat, code: ExitCode)
    requires stage in s.added && stage !in s.exited
    ensures Work(s.(exited := s.exited[stage := code])) < Work(s)
  {
    var t := s.(exited := s.exited[stage := code]);
    assert s.added - t.exited.Keys == (s.added - s.exited.Keys) - {stage};
    Fewer(s.added - s.exited.Keys, stage);
  }

  lemma StepDoesWork(s: State, event: Event)
    requires Enabled(s, event) && Internal(event) && (s.phase.Grace? ==> s.phase.round < |s.plan|)
    ensures Work(Step(s, event)) < Work(s)
  {
    var t := Step(s, event);
    match event
    case Exit(stage, code) => ExitDoesWork(s, stage, code);
    case ExitCallback(stage) => Fewer(s.live, stage);
    case _ =>
      BlockKeeps(s, event);
      LessWork(s, t);
  }

  ghost predicate AllInternal(events: seq<Event>) {
    forall i :: 0 <= i < |events| ==> Internal(events[i])
  }

  /** Unless a stage is added or a stop is called, only boundedly many steps are left, in any order. */
  lemma {:induction false} StepsAreBounded(s: State, events: seq<Event>)
    requires Valid(s) && Runs(s, events) && AllInternal(events)
    ensures |events| <= Work(s)
    decreases |events|
  {
    if events != [] {
      assert Internal(events[0]) && AllInternal(events[1..]);
      NextStep(s, events);
      StepDoesWork(s, events[0]);
      StepsAreBounded(Step(s, events[0]), events[1..]);
    }
  }

  lemma NextStep(s: State, events: seq<Event>)
    requires Valid(s) && events != [] && Runs(s, events)
    ensures Enabled(s, events[0]) && Valid(Step(s, events[0])) && Runs(Step(s, events[0]), events[1..])
  {
    StepValid(s, events[0]);
  }

  /** The stop no longer counts on this stage. */
  ghost predicate Spared(s: State, stage: nat) {
    !BeforeLastBlock(s) && stage in s.received && stage !in s.exited && !(s.phase.Final? && stage in s.phase.awaited)
  }

  /**
   From every state of a stop, some run without a caller resolves it, and leaves alone a stage it
   no longer counts on.
   */
  lemma {:induction false} StopResolvesEventually(s: State, spared: nat) returns (events: seq<Event>)
    requires Valid(s) && s.stopping
    ensures Runs(s, events) && AllInternal(events) && After(s, events).phase == Stopped
    ensures Spared(s, spared) ==>
              && Spared(After(s, events), spared)
              && After(s, events).received[spared] == s.received[spared]
    decreases Work(s)
  {
    events := [];
    if s.phase != Stopped {
      var event := UnresolvedCanProceed(s);
      StepValid(s, event);
      StepDoesWork(s, event);
      StepSpares(s, event, spared);
      StoppingStays(s, event);
      var rest := StopResolvesEventually(Step(s, event), spared);
      events := PrependStep(s, event, rest);
    }
  }

  lemma StepSpares(s: State, event: Event, spared: nat)
    requires Valid(s) && Enabled(s, event) && Internal(event) &&
             (event.Exit? ==> s.phase.Final? && event.stage in s.phase.awaited)
    ensures Spared(s, spared) ==>
              Spared(Step(s, event), spared) && Step(s, event).received[spared] == s.received[spared]
  {
  }

  // ---------------------------------------------------------------- stages added too late

  /** In every run that resolves, the stage has exited. */
  ghost predicate SurelyAwaited(s: State, stage: nat)
    requires Valid(s)
  {
    forall events :: Runs(s, events) && After(s, events).phase == Stopped ==> stage in After(s, events).exited
  }

  ghost function Added(s: State, stage: nat): (t: State)
    requires Valid(s) && stage !in s.added
    ensures Valid(t) && t == Step(s, Add(stage))
  {
    StepValid(s, Add(stage));
    Step(s, Add(stage))
  }

  /** Once the last block has begun, some run resolves the stop without waiting for, or signalling, a new stage. */
  lemma LateStageIsMissed(s: State, stage: nat) returns (events: seq<Event>)
    requires Valid(s) && !BeforeLastBlock(s) && stage !in s.added
    ensures Runs(Added(s, stage), events)
    ensures var t := After(Added(s, stage), events);
            t.phase == Stopped && stage !in t.exited && stage in t.received && t.received[stage] == []
  {
    assert Spared(Added(s, stage), stage);
    events := StopResolvesEventually(Added(s, stage), stage);
  }

  /** A new stage is surely awaited by the stop if and only if it is added before the stop's last block. */
  lemma AwaitedIffBeforeLastBlock(s: State, stage: nat)
    requires Valid(s) && stage !in s.added
    ensures SurelyAwaited(Added(s, stage), stage) <==> BeforeLastBlock(s)
  {
    var t := Added(s, stage);
    if BeforeLastBlock(s) {
      forall events | Runs(t, events) && After(t, events).phase == Stopped ensures stage in After(t, events).exited {
        StopWaitsForStages(t, events);
      }
    } else {
      var events := LateStageIsMissed(s, stage);
    }
  }

  lemma PrependStep(s: State, event: Event, rest: seq<Event>) returns (events: seq<Event>)
    requires Valid(s) && Enabled(s, event) && Valid(Step(s, event)) && Runs(Step(s, event), rest)
    ensures events == [event] + rest && Runs(s, events)
    ensures After(s, events) == After(Step(s, event), rest)
  {
    events := [event] + rest;
    assert events[1..] == rest;
    StepValid(s, event);
  }

  // ---------------------------------------------------------------- the supervisor

  type Received = map<nat, seq<Delivery>>

  /** A signal to one stage; one that has exited takes no notice. */
  function Delivered(
    received: Received, exited: set<nat>, outlived: map<nat, nat>, signal: Signal, round: nat, stage: nat): Received {
    if stage in received && stage in outlived && stage !in exited
    then received[stage := received[stage] + [Delivery(signal, round, outlived[stage])]]
    else received
  }

  /** A signal to each of some stages. */
  function Signalled(
    received: Received, stages: set<nat>, exited: set<nat>, outlived: map<nat, nat>, signal: Signal,
    round: nat): Received {
    map stage | stage in received ::
      if stage in stages && stage !in exited && stage in outlived
      then received[stage] + [Delivery(signal, round, outlived[stage])]
      else received[stage]
  }

  /** Signalling one more stage is delivering to it. */
  lemma SignalMore(
    received: Received, stages: set<nat>, exited: set<nat>, outlived: map<nat, nat>, signal: Signal, round: nat,
    stage: nat)
    requires stage !in stages
    ensures Signalled(received, stages + {stage}, exited, outlived, signal, round) ==
            Delivered(Signalled(received, stages, exited, outlived, signal, round), exited, outlived, signal, round,
                stage)
  {
  }

  class Supervisor {
    var live: set<nat>
    var stopping: bool
    var phase: Phase
    var escalation: seq<Option<Signal>>
    ghost var added: set<nat>
    ghost var late: set<nat>
    ghost var exited: map<nat, ExitCode>
    ghost var received: map<nat, seq<Delivery>>
    ghost var outlived: map<nat, nat>
    ghost var stale: seq<(nat, ExitCode)>

    ghost function Now(): State
      reads this
    {
      State(live, stopping, phase, escalation, added, late, exited, received, outlived, stale)
    }

    constructor ()
      ensures Now() == INITIAL
    {
      live, stopping, phase, escalation := {}, false, Watching, [];
      added, late, exited, received, outlived, stale := {}, {}, map[], map[], map[], [];
    }

    /** A stage is live from here to the callback of its exit. */
    method Track(stage: nat)
      requires Valid(Now()) && Enabled(Now(), Add(stage))
      modifies this
      ensures Now() == Step(old(Now()), Add(stage)) && Valid(Now())
    {
      StepValid(Now(), Add(stage));
      live := live + {stage};
      added, received, outlived := added + {stage}, received[stage := []], outlived[stage := 0];
      late := if stopping then late + {stage} else late;
    }

    /** The continuation attached to a stage's exit. */
    method OnExit(stage: nat, code: ExitCode) returns (reported: bool)
      requires Valid(Now()) && Enabled(Now(), ExitCallback(stage)) && exited[stage] == code
      modifies this
      ensures Now() == Step(old(Now()), ExitCallback(stage)) && Valid(Now())
      ensures reported <==> !old(stopping)
    {
      StepValid(Now(), ExitCallback(stage));
      live := live - {stage};
      reported := !stopping;
      if !stopping {
        stale := stale + [(stage, code)];
      }
    }

    /** Signal the live stages one after the other. */
    method Kill(signal: Signal, ghost round: nat)
      modifies this`received
      ensures Now() == KillLive(old(Now()), signal, round)
    {
      ghost var before := received;
      var left := live;
      while left != {}
        invariant left <= live && received == Signalled(before, live - left, exited.Keys, outlived, signal, round)
        decreases left
      {
        var stage :| stage in left;
        SignalMore(before, live - left, exited.Keys, outlived, signal, round, stage);
        assert live - (left - {stage}) == (live - left) + {stage};
        SignalStage(stage, signal, round);
        left := left - {stage};
      }
      assert live - {} == live;
    }

    /** One stage is signalled; a stage that has exited takes no notice. */
    method SignalStage(stage: nat, signal: Signal, ghost round: nat)
      modifies this`received
      ensures received == Delivered(old(received), exited.Keys, outlived, signal, round, stage)
    {
      if stage in received && stage in outlived && stage !in exited {
        received := received[stage := received[stage] + [Delivery(signal, round, outlived[stage])]];
      }
    }

    /** Request the stop and run it up to its first wait. */
    method RequestStop(signal: Option<Signal>)
      requires Valid(Now()) && Enabled(Now(), Stop(signal))
      modifies this
      ensures Now() == Step(old(Now()), Stop(signal)) && Valid(Now())
    {
      StepValid(Now(), Stop(signal));
      stopping := true;
      escalation := [signal];
      if signal != Some(SIGTERM) {
        escalation := escalation + [Some(SIGTERM)];
      }
      Round(0);
    }

    /** One iteration of the escalation loop, or what follows the loop. */
    method Round(round: nat)
      requires round <= |escalation|
      modifies this
      ensures Now() == BeginRound(old(Now()), round)
    {
      if round < |escalation| {
        if live == {} {
          phase := Stopped;
          return;
        }
        if escalation[round].Some? {
          Kill(escalation[round].value, round);
        }
        phase := Grace(round, live);
      } else {
        Kill(SIGKILL, round);
        phase := Final(live);
      }
    }

    /** The grace period of the current round is over. */
    method OnGraceElapsed()
      requires Valid(Now()) && Enabled(Now(), GraceElapsed)
      modifies this
      ensures Now() == Step(old(Now()), GraceElapsed) && Valid(Now())
    {
      StepValid(Now(), GraceElapsed);
      outlived := AfterGrace(Now()).outlived;
      Round(phase.round + 1);
    }

    /** Every awaited stage has exited. */
    method OnAwaitedExited()
      requires Valid(Now()) && Enabled(Now(), AwaitedExited)
      modifies this
      ensures Now() == Step(old(Now()), AwaitedExited) && Valid(Now())
    {
      StepValid(Now(), AwaitedExited);
      if phase.Grace? {
        Round(phase.round + 1);
      } else {
        phase := Stopped;
      }
    }
  }
}
