/**
 Exit diagnostics of a coverage worker: which process exits are reported, and to which
 request they are attributed, over whole traces of the worker's life.
 */
module ForkDiagnostics {
  import opened Outcomes

  datatype Request = Request(workerId: int, files: seq<string>)

  datatype Message = Run(request: Request) | Collect(request: Request) | StopMessage | OtherMessage

  datatype Report = Report(workerId: Option<int>, files: seq<string>, exitCode: Option<int>, signalCode: Option<string>)

  /** What happens to a worker: `Started` is the end of `start`, after the process is up. */
  datatype Event =
    | Started
    | Sent(message: Message)
    | Responded(finished: bool)
    | Errored
    | StopCalled
    | Exited(exitCode: Option<int>, signalCode: Option<string>)

  type Trace = seq<Event>

  // ---------------------------------------------------------------- the trace read on its own

  predicate IsStop(event: Event) {
    event.StopCalled? || (event.Sent? && event.message.StopMessage?)
  }

  predicate IsRequest(event: Event) {
    event.Sent? && (event.message.Run? || event.message.Collect?)
  }

  /** How often the worker was started, which is how often the exit listener was attached. */
  function Starts(trace: Trace): nat {
    if trace == [] then 0 else Starts(trace[..|trace| - 1]) + (if trace[|trace| - 1].Started? then 1 else 0)
  }

  ghost predicate StopBefore(trace: Trace, n: nat)
    requires n <= |trace|
  {
    exists i :: 0 <= i < n && IsStop(trace[i])
  }

  /** A worker error at `i` that came after a start, when no stop had been requested. */
  ghost predicate ErrorFirst(trace: Trace, i: nat)
    requires i < |trace|
  {
    trace[i].Errored? && Starts(trace[..i]) > 0 && !StopBefore(trace, i)
  }

  ghost predicate ErrorBeforeStop(trace: Trace) {
    exists i :: 0 <= i < |trace| && ErrorFirst(trace, i)
  }

  /** The latest run or collect request, unless a finish came after it. */
  ghost predicate Outstanding(trace: Trace, request: Option<Request>) {
    match request
    case Some(r) =>
      exists i :: 0 <= i < |trace| && IsRequest(trace[i]) && trace[i].message.request == r &&
        forall j :: i < j < |trace| ==> !IsRequest(trace[j]) && trace[j] != Responded(true)
    case None =>
      forall i :: 0 <= i < |trace| && IsRequest(trace[i]) ==> exists j :: i < j < |trace| && trace[j] == Responded(true)
  }

  /** The same request, followed along the trace. */
  function OpenRequest(trace: Trace): Option<Request> {
    if trace == [] then None
    else
      var last := trace[|trace| - 1];
      if IsRequest(last) then Some(last.message.request)
      else if last == Responded(true) then None
      else OpenRequest(trace[..|trace| - 1])
  }

  // ---------------------------------------------------------------- the worker's state

  datatype State = State(
    expectedExit: bool,
    observing: bool,
    workerErrored: bool,
    request: Option<Request>,
    exitListeners: nat,
    errorListeners: nat,
    reports: seq<Report>)

  const INITIAL: State := State(false, false, false, None, 0, 0, [])

  function ReportOf(request: Option<Request>, exitCode: Option<int>, signalCode: Option<string>): Report {
    match request
    case Some(r) => Report(Some(r.workerId), r.files, exitCode, signalCode)
    case None => Report(None, [], exitCode, signalCode)
  }

  function Times(n: nat, report: Report): seq<Report> {
    seq(n, _ => report)
  }

  function Step(s: State, event: Event): State {
    match event
    case Started => s.(exitListeners := s.exitListeners + 1, errorListeners := s.errorListeners + 1, observing := true)
    case Sent(message) =>
      var sent := if message.Run? || message.Collect? then s.(request := Some(message.request)) else s;
      if message.StopMessage? && !s.workerErrored then sent.(expectedExit := true) else sent
    case Responded(finished) => if finished then s.(request := None) else s
    case Errored => if s.errorListeners > 0 && !s.expectedExit then s.(workerErrored := true) else s
    case StopCalled =>
      if s.workerErrored then s
      else if s.observing && s.exitListeners > 0 then
        s.(expectedExit := true, exitListeners := s.exitListeners - 1, observing := false)
      else s.(expectedExit := true, observing := false)
    case Exited(exitCode, signalCode) =>
      if s.expectedExit then s
      else s.(reports := s.reports + Times(s.exitListeners, ReportOf(s.request, exitCode, signalCode)))
  }

  function After(trace: Trace): State {
    if trace == [] then INITIAL else Step(After(trace[..|trace| - 1]), trace[|trace| - 1])
  }

  // ---------------------------------------------------------------- what the state says of the trace

  lemma StopBeforeSnoc(trace: Trace, n: nat)
    requires n < |trace|
    ensures StopBefore(trace, n) == StopBefore(trace[..|trace| - 1], n)
  {
    var front := trace[..|trace| - 1];
    if StopBefore(trace, n) {
      var i :| 0 <= i < n && IsStop(trace[i]);
      assert IsStop(front[i]);
    }
    if StopBefore(front, n) {
      var i :| 0 <= i < n && IsStop(front[i]);
      assert IsStop(trace[i]);
    }
  }

  lemma ErrorFirstSnoc(trace: Trace, i: nat)
    requires i < |trace| - 1
    ensures ErrorFirst(trace, i) == ErrorFirst(trace[..|trace| - 1], i)
  {
    StopBeforeSnoc(trace, i);
    assert trace[..|trace| - 1][..i] == trace[..i];
  }

  lemma StopSoFar(trace: Trace)
    requires trace != []
    ensures StopBefore(trace, |trace|) <==>
            StopBefore(trace[..|trace| - 1], |trace| - 1) || IsStop(trace[|trace| - 1])
  {
    StopBeforeSnoc(trace, |trace| - 1);
    if StopBefore(trace, |trace|) {
      var i :| 0 <= i < |trace| && IsStop(trace[i]);
      assert i == |trace| - 1 || StopBefore(trace, |trace| - 1);
    }
    if StopBefore(trace, |trace| - 1) {
      var i :| 0 <= i < |trace| - 1 && IsStop(trace[i]);
      assert IsStop(trace[i]);
    }
  }

  lemma ErrorSoFar(trace: Trace)
    requires trace != []
    ensures ErrorBeforeStop(trace) <==>
            ErrorBeforeStop(trace[..|trace| - 1]) || ErrorFirst(trace, |trace| - 1)
  {
    var n := |trace| - 1;
    if ErrorBeforeStop(trace) {
      var i :| 0 <= i < |trace| && ErrorFirst(trace, i);
      if i < n {
        ErrorFirstSnoc(trace, i);
        assert ErrorFirst(trace[..n], i);
      }
    }
    if ErrorBeforeStop(trace[..n]) {
      var i :| 0 <= i < n && ErrorFirst(trace[..n], i);
      ErrorFirstSnoc(trace, i);
      assert ErrorFirst(trace, i);
    }
  }

  /**
   The two flags exclude each other on every trace: an exit is expected exactly after a stop
   that no observed worker error preceded, and an error counts exactly when it came first.
   */
  lemma {:induction false} FlagsTell(trace: Trace)
    ensures var s := After(trace);
            && !(s.expectedExit && s.workerErrored)
            && (s.expectedExit <==> StopBefore(trace, |trace|) && !ErrorBeforeStop(trace))
            && (s.workerErrored <==> ErrorBeforeStop(trace))
            && s.errorListeners == Starts(trace)
            && (!s.expectedExit ==> s.exitListeners == Starts(trace))
            && (s.observing ==> s.exitListeners > 0)
  {
    if trace != [] {
      var n := |trace| - 1;
      FlagsTell(trace[..n]);
      StopSoFar(trace);
      ErrorSoFar(trace);
      StopBeforeSnoc(trace, n);
    }
  }

  /** The remembered request is the latest one that has not finished. */
  lemma {:induction false} RequestTells(trace: Trace)
    ensures Outstanding(trace, After(trace).request)
  {
    if trace != [] {
      var n := |trace| - 1;
      var front, last := trace[..n], trace[n];
      RequestTells(front);
      var request := After(trace).request;
      if IsRequest(last) {
        assert IsRequest(trace[n]) && trace[n].message.request == request.value;
      } else if last == Responded(true) {
        assert trace[n] == Responded(true);
      } else if request.Some? {
        var i :| 0 <= i < n && IsRequest(front[i]) && front[i].message.request == request.value &&
          forall j :: i < j < n ==> !IsRequest(front[j]) && front[j] != Responded(true);
        assert IsRequest(trace[i]);
        forall j | i < j < |trace| ensures !IsRequest(trace[j]) && trace[j] != Responded(true) {
          assert j == n || trace[j] == front[j];
        }
      } else {
        forall i | 0 <= i < |trace| && IsRequest(trace[i])
          ensures exists j :: i < j < |trace| && trace[j] == Responded(true)
        {
          assert IsRequest(front[i]);
          var j :| i < j < n && front[j] == Responded(true);
          assert trace[j] == Responded(true);
        }
      }
    }
  }

  /**
   An exit after a trace is reported, once per start, exactly when no stop preceded it or a
   worker error preceded the first stop; each report names the outstanding request.
   */
  lemma ExitReportedExactly(trace: Trace, exitCode: Option<int>, signalCode: Option<string>)
    returns (request: Option<Request>)
    ensures request == OpenRequest(trace) && Outstanding(trace, request)
    ensures After(trace + [Exited(exitCode, signalCode)]).reports ==
            After(trace).reports +
            (if !StopBefore(trace, |trace|) || ErrorBeforeStop(trace)
             then Times(Starts(trace), ReportOf(request, exitCode, signalCode)) else [])
  {
    FlagsTell(trace);
    OpenIsRemembered(trace);
    request := After(trace).request;
    var longer := trace + [Exited(exitCode, signalCode)];
    assert longer[..|longer| - 1] == trace;
  }

  /** The report names the worker and the files of the request, if there is one, and how the process ended. */
  predicate Names(report: Report, request: Option<Request>, exitCode: Option<int>, signalCode: Option<string>) {
    && report.exitCode == exitCode && report.signalCode == signalCode
    && (request.None? ==> report.workerId.None? && report.files == [])
    && (request.Some? ==> report.workerId == Some(request.value.workerId) && report.files == request.value.files)
  }

  /** What an unexplained exit adds: one report for each start, all naming the request that is open then. */
  lemma ReportsNameRequest(trace: Trace, exitCode: Option<int>, signalCode: Option<string>)
    requires !StopBefore(trace, |trace|) || ErrorBeforeStop(trace)
    ensures var before, after := After(trace).reports, After(trace + [Exited(exitCode, signalCode)]).reports;
            && before <= after && |after| == |before| + multiset(trace)[Started]
            && forall k :: |before| <= k < |after| ==> Names(after[k], OpenRequest(trace), exitCode, signalCode)
  {
    var request := ExitReportedExactly(trace, exitCode, signalCode);
    StartsCounted(trace);
  }

  lemma {:induction false} StartsCounted(trace: Trace)
    ensures Starts(trace) == multiset(trace)[Started]
  {
    if trace != [] {
      StartsCounted(trace[..|trace| - 1]);
      assert trace == trace[..|trace| - 1] + [trace[|trace| - 1]];
    }
  }

  /** Nothing but an exit is ever reported. */
  lemma OnlyExitsReported(trace: Trace, event: Event)
    requires !event.Exited?
    ensures After(trace + [event]).reports == After(trace).reports
  {
    assert (trace + [event])[..|trace|] == trace;
  }

  /** The reports that a trace calls for: one per start for each exit that no orderly stop explains. */
  ghost function ReportsOf(trace: Trace): seq<Report> {
    if trace == [] then []
    else
      var front, last := trace[..|trace| - 1], trace[|trace| - 1];
      ReportsOf(front) +
      if last.Exited? && (!StopBefore(front, |front|) || ErrorBeforeStop(front))
      then Times(Starts(front), ReportOf(OpenRequest(front), last.exitCode, last.signalCode))
      else []
  }

  lemma {:induction false} OpenIsRemembered(trace: Trace)
    ensures After(trace).request == OpenRequest(trace) && Outstanding(trace, OpenRequest(trace))
  {
    RequestTells(trace);
    if trace != [] {
      OpenIsRemembered(trace[..|trace| - 1]);
    }
  }

  /** Over a whole trace, the reports are exactly those its unexplained exits call for. */
  lemma {:induction false} WholeTraceReported(trace: Trace)
    ensures After(trace).reports == ReportsOf(trace)
  {
    if trace != [] {
      var front, last := trace[..|trace| - 1], trace[|trace| - 1];
      assert trace == front + [last];
      WholeTraceReported(front);
      match last
      case Exited(exitCode, signalCode) =>
        FlagsTell(front);
        OpenIsRemembered(front);
      case _ => OnlyExitsReported(front, last);
    }
  }

  // ---------------------------------------------------------------- the worker

  class DiagnosticForkWorker {
    var expectedExit: bool
    var observing: bool
    var workerErrored: bool
    var request: Option<Request>
    var exitListeners: nat
    var errorListeners: nat
    var reports: seq<Report>
    ghost var trace: Trace

    ghost predicate Valid()
      reads this
    {
      State(expectedExit, observing, workerErrored, request, exitListeners, errorListeners, reports) == After(trace)
    }

    constructor ()
      ensures Valid() && trace == []
    {
      expectedExit, observing, workerErrored, request := false, false, false, None;
      exitListeners, errorListeners, reports := 0, 0, [];
      trace := [];
    }

    ghost method Record(event: Event)
      modifies this`trace
      ensures trace == old(trace) + [event] && trace[..|trace| - 1] == old(trace)
    {
      trace := trace + [event];
    }

    /** The part of `start` after the process is up. */
    method Start()
      requires Valid()
      modifies this
      ensures Valid() && trace == old(trace) + [Started]
    {
      Record(Started);
      exitListeners := exitListeners + 1;
      errorListeners := errorListeners + 1;
      observing := true;
    }

    method Send(message: Message)
      requires Valid()
      modifies this
      ensures Valid() && trace == old(trace) + [Sent(message)]
    {
      Record(Sent(message));
      if message.Run? || message.Collect? {
        request := Some(message.request);
      }
      if message.StopMessage? && !workerErrored {
        expectedExit := true;
      }
    }

    /** Vitest routes worker responses here; a finished one covers the whole request. */
    method Deserialize(finished: bool)
      requires Valid()
      modifies this
      ensures Valid() && trace == old(trace) + [Responded(finished)]
    {
      Record(Responded(finished));
      if finished {
        request := None;
      }
    }

    /** The error listeners, once attached. */
    method ObserveError()
      requires Valid()
      modifies this
      ensures Valid() && trace == old(trace) + [Errored]
    {
      Record(Errored);
      if errorListeners > 0 {
        if !expectedExit {
          workerErrored := true;
        }
      }
    }

    /** The part of `stop` before the process is asked to end. */
    method Stop()
      requires Valid()
      modifies this
      ensures Valid() && trace == old(trace) + [StopCalled]
    {
      FlagsTell(trace);
      Record(StopCalled);
      if !workerErrored {
        expectedExit := true;
        if observing {
          exitListeners := exitListeners - 1;
          observing := false;
        }
      }
    }

    /** The exit listeners: each attached one reports an exit that was not expected. */
    method ReportExit(exitCode: Option<int>, signalCode: Option<string>)
      requires Valid()
      modifies this
      ensures Valid() && trace == old(trace) + [Exited(exitCode, signalCode)]
    {
      Record(Exited(exitCode, signalCode));
      ghost var before := reports;
      ghost var report := ReportOf(request, exitCode, signalCode);
      var n := 0;
      while n < exitListeners
        invariant n <= exitListeners
        invariant reports == before + (if expectedExit then [] else Times(n, report))
        invariant unchanged(`expectedExit) && unchanged(`observing) && unchanged(`workerErrored) && unchanged(`request)
        invariant unchanged(`exitListeners) && unchanged(`errorListeners)
        invariant trace == old(trace) + [Exited(exitCode, signalCode)]
      {
        if !expectedExit {
          reports := reports + [ReportOf(request, exitCode, signalCode)];
          assert Times(n + 1, report) == Times(n, report) + [report];
        }
        n := n + 1;
      }
      assert trace[..|trace| - 1] == old(trace);
    }
  }
}
