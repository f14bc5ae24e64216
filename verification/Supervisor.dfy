// The stream task: one receiver session at a time, re-created after it dies,
// until the stream is cancelled, breaks, or reconnecting is given up.
module Supervisor {
  import opened Wrappers
  import opened Numbers

  const MAX_CONSECUTIVE_FAILURES := 5
  const HEALTHY_RESET_AFTER := 60_000_000_000 // nanoseconds

  datatype Reason = GaveUp | PairingRequested | SendFailed | EncodeFailed | CaptureFailed

  // What the task does that others can see, in order.
  datatype Action =
    | SessionUp(id: nat)
    | SessionStopped(id: nat)
    | SessionCreated
    | CandidateStopped
    | CaptureStopped
    | Started
    | Reconnecting(attempt: nat, backoffSecs: nat)
    | Failed(reason: Reason)
    | Stopped

  // How one attempt to re-create the session ends.
  datatype Attempt = CreateFails | ConnectFails | PairingAgain | SetupFails | Established

  // What the world answers at an await point, and the time when the task goes on.
  datatype Input =
    | Cancel
    | Audio
    | FrameSent(alive: bool, now: nat)
    | FrameFails(reason: Reason)
    | BackoffOver(outcome: Attempt, now: nat)

  datatype Phase = Live | Waiting | Over

  // `lastFailureAt` is named as in the program; only a successful reconnect sets it.
  datatype State = State(
    phase: Phase, failures: nat, lastFailureAt: Option<nat>, sessions: nat, trace: seq<Action>)

  const INITIAL := State(Live, 0, None, 1, [SessionUp(0), Started])

  function Pow2(k: nat): nat {
    if k == 0 then 1 else 2 * Pow2(k - 1)
  }

  predicate HealthyLongEnough(lastFailureAt: Option<nat>, now: nat) {
    lastFailureAt.Some? && now > lastFailureAt.value + HEALTHY_RESET_AFTER
  }

  function Finish(s: State, error: Option<Reason>): State {
    s.(phase := Over,
       trace := s.trace + [CaptureStopped] + (if error.Some? then [Failed(error.value)] else []) + [Stopped])
  }

  // The top of the supervisor loop without a session in hand.
  function Reconnect(s: State, now: nat): State {
    var failures := (if HealthyLongEnough(s.lastFailureAt, now) then 0 else s.failures) + 1;
    var s' := s.(failures := failures);
    if failures > MAX_CONSECUTIVE_FAILURES then Finish(s', Some(GaveUp))
    else s'.(phase := Waiting, trace := s.trace + [Reconnecting(failures, Pow2(Min(failures - 1, 4)))])
  }

  function StopSession(s: State): State
    requires s.sessions > 0
  {
    s.(trace := s.trace + [SessionStopped(s.sessions - 1)])
  }

  function Step(s: State, input: Input): State
    requires s.sessions > 0
  {
    match s.phase
    case Over => s
    case Live =>
      (match input
       case Cancel => Finish(StopSession(s), None)
       case FrameSent(alive, now) => if alive then s else Reconnect(StopSession(s), now)
       case FrameFails(reason) => Finish(StopSession(s), Some(reason))
       case _ => s)
    case Waiting =>
      (match input
       case Cancel => Finish(s, None)
       case BackoffOver(outcome, now) =>
         (match outcome
          case CreateFails => Reconnect(s, now)
          case ConnectFails => Reconnect(s.(trace := s.trace + [SessionCreated]), now)
          case PairingAgain => Finish(s.(trace := s.trace + [SessionCreated]), Some(PairingRequested))
          case SetupFails => Reconnect(s.(trace := s.trace + [SessionCreated, CandidateStopped]), now)
          case Established =>
            State(Live, s.failures, Some(now), s.sessions + 1,
                  s.trace + [SessionCreated, SessionUp(s.sessions)]))
       case _ => s)
  }

  function Run(s: State, inputs: seq<Input>): (s': State)
    requires s.sessions > 0
    ensures s'.sessions > 0
    decreases |inputs|
  {
    if inputs == [] then s else Run(Step(s, inputs[0]), inputs[1..])
  }

  lemma {:induction false} RunSnoc(s: State, inputs: seq<Input>, last: Input)
    requires s.sessions > 0
    ensures Run(s, inputs + [last]) == Step(Run(s, inputs), last)
    decreases |inputs|
  {
    var all := inputs + [last];
    if inputs == [] {
      assert all[1..] == [];
    } else {
      RunSnoc(Step(s, inputs[0]), inputs[1..], last);
      assert all[1..] == inputs[1..] + [last];
    }
  }

  // ---------------------------------------------------------------------
  // The task as its two nested loops.
  // ---------------------------------------------------------------------

  lemma RunNext(script: seq<Input>, pos: nat)
    requires pos < |script|
    ensures Run(INITIAL, script[..pos + 1]) == Step(Run(INITIAL, script[..pos]), script[pos])
  {
    assert script[..pos + 1] == script[..pos] + [script[pos]];
    RunSnoc(INITIAL, script[..pos], script[pos]);
  }

  lemma RunNothing(script: seq<Input>)
    ensures Run(INITIAL, script[..0]) == INITIAL
  {
    assert script[..0] == [];
  }

  lemma ReconnectIs(s: State, now: nat)
    ensures var failures := (if HealthyLongEnough(s.lastFailureAt, now) then 0 else s.failures) + 1;
      Reconnect(s, now)
      == if failures > MAX_CONSECUTIVE_FAILURES then Finish(s.(failures := failures), Some(GaveUp))
         else State(Waiting, failures, s.lastFailureAt, s.sessions,
                    s.trace + [Reconnecting(failures, Pow2(Min(failures - 1, 4)))])
  {
    hide Pow2, Finish;
  }

  lemma ReconnectIgnoresPhase(s: State, now: nat)
    ensures Reconnect(s.(phase := Live), now) == Reconnect(s, now)
  {
  }

  lemma FinishTrace(finished: State, trace: seq<Action>, fatal: Option<Reason>)
    requires exists s: State :: s.trace == trace && finished == Finish(s, fatal)
    ensures finished.phase == Over
    ensures finished.trace
         == trace + [CaptureStopped] + (if fatal.Some? then [Failed(fatal.value)] else []) + [Stopped]
  {
  }

  predicate EndsBackoff(input: Input) {
    input.Cancel? || input.BackoffOver?
  }

  // Skip the answers that neither end the back-off nor cancel the stream.
  method SitOutBackoff(script: seq<Input>, from: nat, ghost waiting: State) returns (pos: nat)
    requires from <= |script| && waiting.phase == Waiting && waiting.sessions > 0
    requires Run(INITIAL, script[..from]) == waiting
    ensures from <= pos <= |script| && Run(INITIAL, script[..pos]) == waiting
    ensures pos < |script| ==> EndsBackoff(script[pos])
    ensures forall i :: from <= i < pos ==> !EndsBackoff(script[i])
  {
    hide Run;
    pos := from;
    while pos < |script| && !EndsBackoff(script[pos])
      invariant from <= pos <= |script|
      invariant Run(INITIAL, script[..pos]) == waiting
      invariant forall i :: from <= i < pos ==> !EndsBackoff(script[i])
    {
      RunNext(script, pos);
      pos := pos + 1;
    }
  }

  // Play a script of answers. The task is unfinished when the script runs out
  // while it waits for one more.
  method StreamTask(script: seq<Input>) returns (trace: seq<Action>, finished: bool)
    ensures trace == Run(INITIAL, script).trace
    ensures finished <==> Run(INITIAL, script).phase == Over
  {
    hide Run, Pow2, Finish, Reconnect;
    var pos := 0;
    trace := [SessionUp(0), Started];
    var consecutiveFailures := 0;
    var lastFailureAt: Option<nat> := None;
    var sessions := 1;
    var haveSession := true;
    var now := 0;
    var fatal: Option<Reason> := None;
    RunNothing(script);

    label supervisor:
    while true
      invariant pos <= |script| && sessions > 0 && fatal.None?
      invariant var s := State(Live, consecutiveFailures, lastFailureAt, sessions, trace);
                Run(INITIAL, script[..pos]) == if haveSession then s else Reconnect(s, now)
      decreases |script| - pos, if haveSession then 0 else 1
    {
      if !haveSession {
        ReconnectIs(State(Live, consecutiveFailures, lastFailureAt, sessions, trace), now);
        if HealthyLongEnough(lastFailureAt, now) {
          consecutiveFailures := 0;
        }
        consecutiveFailures := consecutiveFailures + 1;
        if consecutiveFailures > MAX_CONSECUTIVE_FAILURES {
          fatal := Some(GaveUp);
          break supervisor;
        }
        trace := trace + [Reconnecting(consecutiveFailures, Pow2(Min(consecutiveFailures - 1, 4)))];
        ghost var waiting := State(Waiting, consecutiveFailures, lastFailureAt, sessions, trace);
        pos := SitOutBackoff(script, pos, waiting);
        if pos == |script| {
          assert script[..pos] == script;
          return trace, false;
        }
        RunNext(script, pos);
        var input := script[pos];
        pos := pos + 1;
        if input.Cancel? {
          break supervisor;
        }
        now := input.now;
        match input.outcome {
          case CreateFails =>
            ReconnectIgnoresPhase(waiting, now);
            continue supervisor;
          case ConnectFails =>
            trace := trace + [SessionCreated];
            ReconnectIgnoresPhase(waiting.(trace := trace), now);
            continue supervisor;
          case PairingAgain =>
            trace := trace + [SessionCreated];
            fatal := Some(PairingRequested);
            break supervisor;
          case SetupFails =>
            trace := trace + [SessionCreated, CandidateStopped];
            ReconnectIgnoresPhase(waiting.(trace := trace), now);
            continue supervisor;
          case Established =>
            trace := trace + [SessionCreated, SessionUp(sessions)];
            lastFailureAt := Some(now);
            sessions := sessions + 1;
            haveSession := true;
        }
      }

      label inner:
      while true
        invariant pos <= |script|
        invariant Run(INITIAL, script[..pos]) == State(Live, consecutiveFailures, lastFailureAt, sessions, trace)
        decreases |script| - pos
      {
        if pos == |script| {
          assert script[..pos] == script;
          return trace, false;
        }
        RunNext(script, pos);
        var input := script[pos];
        pos := pos + 1;
        match input {
          case Cancel =>
            trace := trace + [SessionStopped(sessions - 1)];
            break supervisor;
          case FrameFails(reason) =>
            trace := trace + [SessionStopped(sessions - 1)];
            fatal := Some(reason);
            break supervisor;
          case FrameSent(alive, at) =>
            if !alive {
              trace := trace + [SessionStopped(sessions - 1)];
              now := at;
              haveSession := false;
              break inner;
            }
          case _ =>
        }
      }
    }

    FinishTrace(Run(INITIAL, script[..pos]), trace, fatal);
    trace := trace + [CaptureStopped];
    if fatal.Some? {
      trace := trace + [Failed(fatal.value)];
    }
    trace := trace + [Stopped];
    finished := true;
    OverForever(script, pos);
  }

  // A finished task ignores the rest of the script.
  lemma {:induction false} OverForever(script: seq<Input>, pos: nat)
    requires pos <= |script| && Run(INITIAL, script[..pos]).phase == Over
    ensures Run(INITIAL, script) == Run(INITIAL, script[..pos])
    decreases |script| - pos
  {
    if pos == |script| {
      assert script[..pos] == script;
    } else {
      RunNext(script, pos);
      OverForever(script, pos + 1);
    }
  }

  // ---------------------------------------------------------------------
  // What every run emits.
  // ---------------------------------------------------------------------

  predicate IsEvent(a: Action) {
    a.Started? || a.Reconnecting? || a.Failed? || a.Stopped?
  }

  predicate IsSessionAction(a: Action) {
    a.SessionUp? || a.SessionStopped?
  }

  function Events(trace: seq<Action>): seq<Action> {
    if trace == [] then []
    else
      var last := trace[|trace| - 1];
      Events(trace[..|trace| - 1]) + if IsEvent(last) then [last] else []
  }

  function SessionActions(trace: seq<Action>): seq<Action> {
    if trace == [] then []
    else
      var last := trace[|trace| - 1];
      SessionActions(trace[..|trace| - 1]) + if IsSessionAction(last) then [last] else []
  }

  function CaptureStops(trace: seq<Action>): nat {
    if trace == [] then 0
    else CaptureStops(trace[..|trace| - 1]) + if trace[|trace| - 1].CaptureStopped? then 1 else 0
  }

  lemma {:induction false} ProjectionsConcat(a: seq<Action>, b: seq<Action>)
    ensures Events(a + b) == Events(a) + Events(b)
    ensures SessionActions(a + b) == SessionActions(a) + SessionActions(b)
    ensures CaptureStops(a + b) == CaptureStops(a) + CaptureStops(b)
    decreases |b|
  {
    if b == [] {
      assert a + b == a;
    } else {
      assert (a + b)[..|a + b| - 1] == a + b[..|b| - 1];
      ProjectionsConcat(a, b[..|b| - 1]);
    }
  }

  predicate GoodReconnect(a: Action) {
    a.Reconnecting? && 1 <= a.attempt <= MAX_CONSECUTIVE_FAILURES && a.backoffSecs == Pow2(a.attempt - 1)
  }

  // Started, then announced reconnect attempts only.
  predicate OpenEvents(events: seq<Action>) {
    && events != [] && events[0] == Started
    && forall i :: 1 <= i < |events| ==> GoodReconnect(events[i])
  }

  // The same, then at most one failure, then exactly one end.
  predicate ClosedEvents(events: seq<Action>) {
    var n := |events|;
    && n >= 2 && events[n - 1] == Stopped
    && (OpenEvents(events[..n - 1])
        || (n >= 3 && events[n - 2].Failed? && OpenEvents(events[..n - 2])))
  }

  // Session 0 up, session 0 stopped, session 1 up, and so on.
  function Alternation(sessions: nat): seq<Action> {
    if sessions == 0 then []
    else Alternation(sessions - 1) + [SessionUp(sessions - 1), SessionStopped(sessions - 1)]
  }

  function LiveAlternation(sessions: nat): seq<Action>
    requires sessions > 0
  {
    Alternation(sessions - 1) + [SessionUp(sessions - 1)]
  }

  // A session is created only when none is up: the session actions before it
  // pair off.
  ghost predicate CreatedWhenNoneUp(trace: seq<Action>) {
    forall i :: 0 <= i < |trace| && trace[i].SessionCreated? ==> |SessionActions(trace[..i])| % 2 == 0
  }

  ghost predicate Shaped(s: State) {
    && s.sessions > 0 && s.failures <= MAX_CONSECUTIVE_FAILURES + 1
    && (s.phase != Over ==> s.failures <= MAX_CONSECUTIVE_FAILURES)
    && CreatedWhenNoneUp(s.trace)
    && SessionActions(s.trace) == (if s.phase == Live then LiveAlternation(s.sessions) else Alternation(s.sessions))
    && CaptureStops(s.trace) == (if s.phase == Over then 1 else 0)
    && (if s.phase == Over then ClosedEvents(Events(s.trace)) else OpenEvents(Events(s.trace)))
  }

  // A state reached by appending actions to another one.
  lemma Appended(trace: seq<Action>, more: seq<Action>)
    requires CreatedWhenNoneUp(trace)
    requires more != [] && more[0].SessionCreated? ==> |SessionActions(trace)| % 2 == 0
    requires forall i :: 1 <= i < |more| ==> !more[i].SessionCreated?
    ensures CreatedWhenNoneUp(trace + more)
  {
    var all := trace + more;
    forall i | 0 <= i < |all| && all[i].SessionCreated? ensures |SessionActions(all[..i])| % 2 == 0 {
      if i < |trace| {
        assert all[..i] == trace[..i];
      } else {
        assert all[..i] == trace;
      }
    }
  }

  lemma {:induction false} AlternationEven(sessions: nat)
    ensures |Alternation(sessions)| % 2 == 0
  {
    if sessions > 0 {
      AlternationEven(sessions - 1);
    }
  }

  ghost predicate Quiet(s: State) {
    && s.sessions > 0 && s.failures <= MAX_CONSECUTIVE_FAILURES
    && CreatedWhenNoneUp(s.trace)
    && SessionActions(s.trace) == Alternation(s.sessions)
    && CaptureStops(s.trace) == 0 && OpenEvents(Events(s.trace))
  }

  lemma OneProjection(a: Action)
    ensures Events([a]) == (if IsEvent(a) then [a] else [])
    ensures SessionActions([a]) == (if IsSessionAction(a) then [a] else [])
    ensures CaptureStops([a]) == (if a.CaptureStopped? then 1 else 0)
  {
    assert [a][..0] == [];
  }

  lemma AppendOne(trace: seq<Action>, a: Action)
    requires CreatedWhenNoneUp(trace) && (a.SessionCreated? ==> |SessionActions(trace)| % 2 == 0)
    ensures CreatedWhenNoneUp(trace + [a])
    ensures Events(trace + [a]) == (if IsEvent(a) then Events(trace) + [a] else Events(trace))
    ensures SessionActions(trace + [a])
         == (if IsSessionAction(a) then SessionActions(trace) + [a] else SessionActions(trace))
    ensures CaptureStops(trace + [a]) == CaptureStops(trace) + (if a.CaptureStopped? then 1 else 0)
  {
    Appended(trace, [a]);
    ProjectionsConcat(trace, [a]);
    OneProjection(a);
  }

  lemma FinishShaped(s: State, error: Option<Reason>)
    requires Quiet(s.(failures := 0)) && s.failures <= MAX_CONSECUTIVE_FAILURES + 1
    ensures Shaped(Finish(s, error))
  {
    hide Events, SessionActions, CaptureStops, CreatedWhenNoneUp, OpenEvents, ClosedEvents;
    var events := Events(s.trace);
    var captureStopped := s.trace + [CaptureStopped];
    AppendOne(s.trace, CaptureStopped);
    if error.Some? {
      var failed := captureStopped + [Failed(error.value)];
      AppendOne(captureStopped, Failed(error.value));
      AppendOne(failed, Stopped);
      assert Finish(s, error).trace == failed + [Stopped];
      FailsClosed(events, error.value);
    } else {
      AppendOne(captureStopped, Stopped);
      assert Finish(s, error).trace == captureStopped + [Stopped];
      StopCloses(events);
    }
  }

  lemma StopCloses(events: seq<Action>)
    requires OpenEvents(events)
    ensures ClosedEvents(events + [Stopped])
  {
    assert (events + [Stopped])[..|events|] == events;
  }

  lemma FailsClosed(events: seq<Action>, reason: Reason)
    requires OpenEvents(events)
    ensures ClosedEvents(events + [Failed(reason)] + [Stopped])
  {
    hide OpenEvents;
    assert events != [] by { OpenNotEmpty(events); }
    assert (events + [Failed(reason)] + [Stopped])[..|events|] == events;
  }

  lemma OpenNotEmpty(events: seq<Action>)
    requires OpenEvents(events)
    ensures events != []
  {
  }

  lemma ReconnectShaped(s: State, now: nat)
    requires Quiet(s)
    ensures Shaped(Reconnect(s, now))
  {
    hide Finish, Events, SessionActions, CaptureStops, CreatedWhenNoneUp, ClosedEvents, Alternation;
    var failures := (if HealthyLongEnough(s.lastFailureAt, now) then 0 else s.failures) + 1;
    if failures > MAX_CONSECUTIVE_FAILURES {
      FinishShaped(s.(failures := failures), Some(GaveUp));
    } else {
      AppendOne(s.trace, Reconnecting(failures, Pow2(Min(failures - 1, 4))));
    }
  }

  lemma StopShaped(s: State)
    requires Shaped(s) && s.phase == Live
    ensures Quiet(StopSession(s))
  {
    hide Events, SessionActions, CaptureStops, CreatedWhenNoneUp, ClosedEvents, OpenEvents;
    AppendOne(s.trace, SessionStopped(s.sessions - 1));
    assert Alternation(s.sessions) == LiveAlternation(s.sessions) + [SessionStopped(s.sessions - 1)];
  }

  lemma WaitingStepShaped(s: State, outcome: Attempt, now: nat)
    requires Shaped(s) && s.phase == Waiting
    ensures Shaped(Step(s, BackoffOver(outcome, now)))
  {
    hide Reconnect, Finish, Events, SessionActions, CaptureStops, CreatedWhenNoneUp, OpenEvents, ClosedEvents;
    AlternationEven(s.sessions);
    var created := s.trace + [SessionCreated];
    AppendOne(s.trace, SessionCreated);
    match outcome {
      case CreateFails => ReconnectShaped(s, now);
      case ConnectFails => ReconnectShaped(s.(trace := created), now);
      case PairingAgain => FinishShaped(s.(trace := created), Some(PairingRequested));
      case SetupFails =>
        AppendOne(created, CandidateStopped);
        assert created + [CandidateStopped] == s.trace + [SessionCreated, CandidateStopped];
        ReconnectShaped(s.(trace := created + [CandidateStopped]), now);
      case Established =>
        AppendOne(created, SessionUp(s.sessions));
        assert created + [SessionUp(s.sessions)] == s.trace + [SessionCreated, SessionUp(s.sessions)];
    }
  }

  lemma StepShaped(s: State, input: Input)
    requires Shaped(s)
    ensures Shaped(Step(s, input))
  {
    hide Reconnect, Finish, StopSession;
    if s.phase == Live {
      StopShaped(s);
      match input {
        case Cancel => FinishShaped(StopSession(s), None);
        case FrameSent(alive, now) => ReconnectShaped(StopSession(s), now);
        case FrameFails(reason) => FinishShaped(StopSession(s), Some(reason));
        case _ =>
      }
    } else if s.phase == Waiting {
      match input {
        case Cancel => FinishShaped(s, None);
        case BackoffOver(outcome, now) => WaitingStepShaped(s, outcome, now);
        case _ =>
      }
    }
  }

  lemma {:induction false} RunShaped(s: State, inputs: seq<Input>)
    requires Shaped(s)
    ensures Shaped(Run(s, inputs))
    decreases |inputs|
  {
    if inputs != [] {
      StepShaped(s, inputs[0]);
      RunShaped(Step(s, inputs[0]), inputs[1..]);
    }
  }

  lemma InitialShaped()
    ensures Shaped(INITIAL)
  {
    assert INITIAL.trace[..1] == [SessionUp(0)];
    assert INITIAL.trace[..1][..0] == [];
    assert Alternation(0) == [];
  }

  // Every run: the events are one start, announced attempts 1 to 5 with
  // doubling back-off, then at the end at most one failure and exactly one
  // stop; every session that came up is stopped exactly once, before the next
  // one is created; the capture is stopped once, at the end.
  lemma EveryRun(inputs: seq<Input>)
    ensures var s := Run(INITIAL, inputs);
      && (s.phase == Over ==> ClosedEvents(Events(s.trace)))
      && (s.phase != Over ==> OpenEvents(Events(s.trace)))
      && SessionActions(s.trace) == (if s.phase == Live then LiveAlternation(s.sessions) else Alternation(s.sessions))
      && CreatedWhenNoneUp(s.trace)
      && CaptureStops(s.trace) == (if s.phase == Over then 1 else 0)
  {
    InitialShaped();
    RunShaped(INITIAL, inputs);
  }

  // ---------------------------------------------------------------------
  // When reconnecting is given up.
  // ---------------------------------------------------------------------

  predicate FailedAttempt(input: Input) {
    input.BackoffOver? && (input.outcome.CreateFails? || input.outcome.ConnectFails? || input.outcome.SetupFails?)
  }

  // An outage: the session dies, and one attempt after the other fails.
  predicate Outage(inputs: seq<Input>) {
    && inputs != [] && inputs[0].FrameSent? && !inputs[0].alive
    && forall i :: 1 <= i < |inputs| ==> FailedAttempt(inputs[i])
  }

  function TimeOf(input: Input): nat {
    if input.FrameSent? || input.BackoffOver? then input.now else 0
  }

  predicate InOrder(inputs: seq<Input>) {
    forall i, j :: 0 <= i <= j < |inputs| ==> TimeOf(inputs[i]) <= TimeOf(inputs[j])
  }

  // The failing step that would be one too many, counted from a failure count.
  predicate TooMany(failures: nat, lastFailureAt: Option<nat>, inputs: seq<Input>)
    requires failures <= MAX_CONSECUTIVE_FAILURES
  {
    var k := MAX_CONSECUTIVE_FAILURES - failures;
    |inputs| > k && !HealthyLongEnough(lastFailureAt, TimeOf(inputs[k]))
  }

  lemma ReconnectCounts(s: State, now: nat)
    requires s.sessions > 0 && s.failures <= MAX_CONSECUTIVE_FAILURES
    ensures var failures := (if HealthyLongEnough(s.lastFailureAt, now) then 0 else s.failures) + 1;
      var s' := Reconnect(s, now);
      && s'.lastFailureAt == s.lastFailureAt && s'.failures == failures && s'.sessions == s.sessions
      && s'.phase == (if failures > MAX_CONSECUTIVE_FAILURES then Over else Waiting)
  {
  }

  lemma {:induction false} GivesUpWaiting(s: State, inputs: seq<Input>)
    requires s.sessions > 0 && s.failures <= MAX_CONSECUTIVE_FAILURES && s.phase == Waiting
    requires InOrder(inputs) && forall i :: 0 <= i < |inputs| ==> FailedAttempt(inputs[i])
    ensures Run(s, inputs).phase == Over <==> TooMany(s.failures, s.lastFailureAt, inputs)
    ensures Run(s, inputs).phase != Live
    decreases |inputs|
  {
    if inputs != [] {
      FailingStep(s, inputs[0]);
      var s' := Step(s, inputs[0]);
      if s'.phase == Over {
        OverStays(s', inputs[1..]);
      } else {
        GivesUpWaiting(s', inputs[1..]);
      }
    }
  }

  lemma FailingStep(s: State, input: Input)
    requires s.sessions > 0 && s.failures <= MAX_CONSECUTIVE_FAILURES && s.phase == Waiting
    requires FailedAttempt(input)
    ensures var failures := (if HealthyLongEnough(s.lastFailureAt, input.now) then 0 else s.failures) + 1;
      var s' := Step(s, input);
      && s'.lastFailureAt == s.lastFailureAt && s'.failures == failures && s'.sessions == s.sessions
      && s'.phase == (if failures > MAX_CONSECUTIVE_FAILURES then Over else Waiting)
  {
  }

  lemma {:induction false} OverStays(s: State, inputs: seq<Input>)
    requires s.sessions > 0 && s.phase == Over
    ensures Run(s, inputs) == s
    decreases |inputs|
  {
    if inputs != [] {
      OverStays(s, inputs[1..]);
    }
  }

  // An outage ends the stream if and only if the step that exceeds five
  // attempts comes within a minute of the last successful reconnect, or there
  // has been no successful reconnect at all.
  lemma OutageGivesUpExactly(s: State, inputs: seq<Input>)
    requires s.sessions > 0 && s.failures <= MAX_CONSECUTIVE_FAILURES && s.phase == Live
    requires Outage(inputs) && InOrder(inputs)
    ensures Run(s, inputs).phase == Over <==> TooMany(s.failures, s.lastFailureAt, inputs)
  {
    var now := TimeOf(inputs[0]);
    ReconnectCounts(StopSession(s), now);
    var s' := Step(s, inputs[0]);
    if s'.phase == Over {
      OverStays(s', inputs[1..]);
    } else {
      GivesUpWaiting(s', inputs[1..]);
    }
  }

  // The attempts announced from number `from` on.
  function Announced(from: nat): seq<Action>
    requires from >= 1
    decreases MAX_CONSECUTIVE_FAILURES + 1 - from
  {
    if from > MAX_CONSECUTIVE_FAILURES then [Failed(GaveUp), Stopped]
    else [Reconnecting(from, Pow2(from - 1))] + Announced(from + 1)
  }

  lemma EventAdded(trace: seq<Action>, a: Action)
    ensures Events(trace + [a]) == if IsEvent(a) then Events(trace) + [a] else Events(trace)
  {
    assert (trace + [a])[..|trace|] == trace;
  }

  // What one more failure announces when no reconnect has succeeded yet.
  lemma ReconnectEvents(s: State, now: nat)
    requires s.lastFailureAt == None && s.failures <= MAX_CONSECUTIVE_FAILURES
    ensures Events(Reconnect(s, now).trace)
         == Events(s.trace) + (if s.failures < MAX_CONSECUTIVE_FAILURES
                               then [Reconnecting(s.failures + 1, Pow2(s.failures))]
                               else [Failed(GaveUp), Stopped])
  {
    hide Events;
    if s.failures < MAX_CONSECUTIVE_FAILURES {
      EventAdded(s.trace, Reconnecting(s.failures + 1, Pow2(s.failures)));
    } else {
      var captureStopped := s.trace + [CaptureStopped];
      EventAdded(s.trace, CaptureStopped);
      EventAdded(captureStopped, Failed(GaveUp));
      EventAdded(captureStopped + [Failed(GaveUp)], Stopped);
    }
  }

  lemma FailingStepEvents(s: State, input: Input)
    requires s.sessions > 0 && s.phase == Waiting && FailedAttempt(input)
    requires s.lastFailureAt == None && s.failures <= MAX_CONSECUTIVE_FAILURES
    ensures Events(Step(s, input).trace)
         == Events(s.trace) + (if s.failures < MAX_CONSECUTIVE_FAILURES
                               then [Reconnecting(s.failures + 1, Pow2(s.failures))]
                               else [Failed(GaveUp), Stopped])
  {
    hide Events, Reconnect;
    var created := s.trace + [SessionCreated];
    EventAdded(s.trace, SessionCreated);
    EventAdded(created, CandidateStopped);
    assert created + [CandidateStopped] == s.trace + [SessionCreated, CandidateStopped];
    match input.outcome {
      case CreateFails => ReconnectEvents(s, input.now);
      case ConnectFails => ReconnectEvents(s.(trace := created), input.now);
      case SetupFails => ReconnectEvents(s.(trace := created + [CandidateStopped]), input.now);
    }
  }

  lemma {:induction false} OutageEvents(s: State, inputs: seq<Input>)
    requires s.sessions > 0 && s.phase == Waiting && s.lastFailureAt == None
    requires 1 <= s.failures <= MAX_CONSECUTIVE_FAILURES
    requires |inputs| >= MAX_CONSECUTIVE_FAILURES + 1 - s.failures
    requires forall i :: 0 <= i < |inputs| ==> FailedAttempt(inputs[i])
    ensures Run(s, inputs).phase == Over
    ensures Events(Run(s, inputs).trace) == Events(s.trace) + Announced(s.failures + 1)
    decreases |inputs|
  {
    hide Events, Step, Pow2;
    FailingStep(s, inputs[0]);
    FailingStepEvents(s, inputs[0]);
    var s' := Step(s, inputs[0]);
    if s'.phase == Over {
      OverStays(s', inputs[1..]);
    } else {
      OutageEvents(s', inputs[1..]);
      assert Events(s.trace) + ([Reconnecting(s'.failures, Pow2(s.failures))] + Announced(s'.failures + 1))
          == Events(s'.trace) + Announced(s'.failures + 1);
    }
  }

  // As long as no reconnect has succeeded, an outage is given up on its sixth
  // failing step and not before, after announcing exactly attempts 1 to 5.
  lemma FirstOutage(inputs: seq<Input>)
    requires Outage(inputs) && InOrder(inputs)
    ensures Run(INITIAL, inputs).phase == Over <==> |inputs| >= 6
    ensures |inputs| >= 6 ==> Events(Run(INITIAL, inputs).trace) == [Started] + Announced(1)
  {
    OutageGivesUpExactly(INITIAL, inputs);
    if |inputs| >= 6 {
      FirstOutageEvents(inputs);
    }
  }

  lemma DeathStep(s: State, input: Input)
    requires s.sessions > 0 && s.phase == Live && input.FrameSent? && !input.alive
    ensures Step(s, input) == Reconnect(StopSession(s), input.now)
  {
  }

  lemma FirstOutageEvents(inputs: seq<Input>)
    requires Outage(inputs) && |inputs| >= 6
    ensures Events(Run(INITIAL, inputs).trace) == [Started] + Announced(1)
  {
    hide Events, Reconnect, Pow2, Step, Run, Announced;
    RunFirst(INITIAL, inputs);
    AnnouncedFirst();
    var died, now := StopSession(INITIAL), inputs[0].now;
    InitialEvents();
    EventAdded(INITIAL.trace, SessionStopped(0));
    ReconnectEvents(died, now);
    ReconnectCounts(died, now);
    DeathStep(INITIAL, inputs[0]);
    OutageEvents(Reconnect(died, now), inputs[1..]);
    assert [Started] + ([Reconnecting(1, Pow2(0))] + Announced(2))
        == [Started] + [Reconnecting(1, Pow2(0))] + Announced(2);
  }

  lemma RunFirst(s: State, inputs: seq<Input>)
    requires s.sessions > 0 && inputs != []
    ensures Run(s, inputs) == Run(Step(s, inputs[0]), inputs[1..])
  {
    hide Step;
  }

  lemma AnnouncedFirst()
    ensures Announced(1) == [Reconnecting(1, Pow2(0))] + Announced(2)
  {
    hide Pow2;
  }

  lemma InitialEvents()
    ensures Events(INITIAL.trace) == [Started]
  {
    assert INITIAL.trace[..1] == [SessionUp(0)] && [SessionUp(0)][..0] == [];
  }

  // More than a minute after the last successful reconnect every attempt
  // counts as the first, however many fail.
  lemma {:induction false} StuckAtFirstAttempt(s: State, inputs: seq<Input>)
    requires s.sessions > 0 && s.phase == Waiting && s.failures == 1
    requires forall i :: 0 <= i < |inputs| ==>
               FailedAttempt(inputs[i]) && HealthyLongEnough(s.lastFailureAt, TimeOf(inputs[i]))
    ensures Run(s, inputs).phase == Waiting && Run(s, inputs).failures == 1
    decreases |inputs|
  {
    if inputs != [] {
      FailingStep(s, inputs[0]);
      StuckAtFirstAttempt(Step(s, inputs[0]), inputs[1..]);
    }
  }

  // ---------------------------------------------------------------------
  // Runs on a real clock.
  // ---------------------------------------------------------------------

  const SECOND := 1_000_000_000 // nanoseconds

  // The back-off announced last, when the task is sitting it out.
  function PendingBackoff(s: State): nat {
    if s.phase == Waiting && s.trace != [] && s.trace[|s.trace| - 1].Reconnecting?
    then s.trace[|s.trace| - 1].backoffSecs * SECOND else 0
  }

  // Answers the task takes come no earlier than the answer before, and an
  // attempt ends no earlier than its announced back-off allows.
  ghost predicate HonorsBackoff(s: State, now: nat, inputs: seq<Input>)
    requires s.sessions > 0
    decreases |inputs|
  {
    inputs != [] ==>
      var input := inputs[0];
      && (input.FrameSent? ==> input.now >= now)
      && (input.BackoffOver? ==> input.now >= now + PendingBackoff(s))
      && HonorsBackoff(Step(s, input), if input.FrameSent? || input.BackoffOver? then input.now else now, inputs[1..])
  }

  // The answers to attempts that fail, a second apart.
  function FailingAnswers(from: nat, attempts: nat): seq<Input>
    decreases attempts
  {
    if attempts == 0 then [] else [BackoffOver(ConnectFails, from + SECOND)] + FailingAnswers(from + SECOND, attempts - 1)
  }

  // What one more failing attempt leaves when the counter starts over.
  lemma StuckStep(s: State, now: nat)
    requires s.sessions > 0 && s.phase == Waiting && s.failures == 1 && HealthyLongEnough(s.lastFailureAt, now)
    ensures var s' := Step(s, BackoffOver(ConnectFails, now));
      && s'.sessions == s.sessions && s'.phase == Waiting && s'.failures == 1
      && s'.lastFailureAt == s.lastFailureAt && PendingBackoff(s') == SECOND
      && s'.trace == s.trace + [SessionCreated, Reconnecting(1, 1)]
  {
    assert Pow2(0) == 1;
    assert s.trace + [SessionCreated] + [Reconnecting(1, 1)] == s.trace + [SessionCreated, Reconnecting(1, 1)];
  }

  lemma {:induction false} StuckOnRealClock(s: State, now: nat, attempts: nat)
    requires s.sessions > 0 && s.phase == Waiting && s.failures == 1 && PendingBackoff(s) == SECOND
    requires HealthyLongEnough(s.lastFailureAt, now)
    ensures HonorsBackoff(s, now, FailingAnswers(now, attempts))
    ensures var s' := Run(s, FailingAnswers(now, attempts)); s'.phase == Waiting && s'.failures == 1
    ensures |FailingAnswers(now, attempts)| == attempts
    decreases attempts
  {
    hide PendingBackoff, Step;
    if attempts > 0 {
      var inputs, later := FailingAnswers(now, attempts), now + SECOND;
      StuckStep(s, later);
      StuckOnRealClock(Step(s, inputs[0]), later, attempts - 1);
      assert inputs[1..] == FailingAnswers(later, attempts - 1);
    }
  }

  // A run of any length that never gives up: the session dies, a reconnect
  // succeeds after its back-off, the new session lives for more than a minute,
  // and every attempt after that fails a second after it was announced, each
  // time as the first.
  lemma EndlessRun(attempts: nat)
    ensures var died := SECOND + HEALTHY_RESET_AFTER + 1;
      var inputs := [FrameSent(false, 0), BackoffOver(Established, SECOND), FrameSent(false, died)]
                    + FailingAnswers(died, attempts);
      && |inputs| == attempts + 3 && HonorsBackoff(INITIAL, 0, inputs)
      && Run(INITIAL, inputs).phase == Waiting && Run(INITIAL, inputs).failures == 1
  {
    var died := SECOND + HEALTHY_RESET_AFTER + 1;
    var failing := FailingAnswers(died, attempts);
    var inputs := [FrameSent(false, 0), BackoffOver(Established, SECOND), FrameSent(false, died)] + failing;
    assert Pow2(0) == 1;
    var s1 := Step(INITIAL, inputs[0]);
    var s2 := Step(s1, inputs[1]);
    var s3 := Step(s2, inputs[2]);
    assert PendingBackoff(s1) == SECOND && s2.phase == Live && PendingBackoff(s3) == SECOND;
    StuckOnRealClock(s3, died, attempts);
    Peel(INITIAL, 0, inputs);
    Peel(s1, 0, inputs[1..]);
    Peel(s2, SECOND, inputs[2..]);
    assert inputs[1..][1..] == inputs[2..] && inputs[2..][1..] == failing;
  }

  lemma Peel(s: State, now: nat, inputs: seq<Input>)
    requires s.sessions > 0 && inputs != [] && (inputs[0].FrameSent? || inputs[0].BackoffOver?)
    ensures Run(s, inputs) == Run(Step(s, inputs[0]), inputs[1..])
    ensures HonorsBackoff(s, now, inputs)
       <==> inputs[0].now >= now + (if inputs[0].BackoffOver? then PendingBackoff(s) else 0)
            && HonorsBackoff(Step(s, inputs[0]), inputs[0].now, inputs[1..])
  {
  }

  // ---------------------------------------------------------------------
  // What each answer shows, told from the trace and the answers alone.
  // ---------------------------------------------------------------------

  // Where a trace stands.
  predicate SessionIsUp(trace: seq<Action>) {
    trace != [] && (trace[|trace| - 1].Started? || trace[|trace| - 1].SessionUp?)
  }

  predicate IsBackingOff(trace: seq<Action>) {
    trace != [] && trace[|trace| - 1].Reconnecting?
  }

  predicate HasEnded(trace: seq<Action>) {
    trace != [] && trace[|trace| - 1].Stopped?
  }

  // The attempt announced last, or zero.
  function LastAttempt(trace: seq<Action>): nat {
    if trace == [] then 0
    else if trace[|trace| - 1].Reconnecting? then trace[|trace| - 1].attempt
    else LastAttempt(trace[..|trace| - 1])
  }

  function SessionsUp(trace: seq<Action>): nat {
    if trace == [] then 0
    else SessionsUp(trace[..|trace| - 1]) + if trace[|trace| - 1].SessionUp? then 1 else 0
  }

  // When a reconnect succeeded last.
  function LastReconnect(inputs: seq<Input>): Option<nat> {
    if inputs == [] then None
    else
      var init, last := inputs[..|inputs| - 1], inputs[|inputs| - 1];
      if last.BackoffOver? && last.outcome.Established? && IsBackingOff(Run(INITIAL, init).trace) then Some(last.now)
      else LastReconnect(init)
  }

  // The attempt that a failure at this time would announce.
  function NextAttempt(trace: seq<Action>, reconnected: Option<nat>, now: nat): nat {
    if reconnected.Some? && now > reconnected.value + 60_000_000_000 then 1 else LastAttempt(trace) + 1
  }

  // One more failure: the next attempt with its back-off, or the end after five.
  function AfterFailure(trace: seq<Action>, reconnected: Option<nat>, now: nat): seq<Action> {
    var attempt := NextAttempt(trace, reconnected, now);
    if attempt == 1 then [Reconnecting(1, 1)]
    else if attempt == 2 then [Reconnecting(2, 2)]
    else if attempt == 3 then [Reconnecting(3, 4)]
    else if attempt == 4 then [Reconnecting(4, 8)]
    else if attempt == 5 then [Reconnecting(5, 16)]
    else [CaptureStopped, Failed(GaveUp), Stopped]
  }

  // The actions that an answer brings about.
  function Brings(trace: seq<Action>, reconnected: Option<nat>, input: Input): seq<Action> {
    var stop := [SessionStopped(if SessionsUp(trace) > 0 then SessionsUp(trace) - 1 else 0)];
    if SessionIsUp(trace) then
      match input
      case Cancel => stop + [CaptureStopped, Stopped]
      case FrameSent(alive, now) => if alive then [] else stop + AfterFailure(trace, reconnected, now)
      case FrameFails(reason) => stop + [CaptureStopped, Failed(reason), Stopped]
      case _ => []
    else if IsBackingOff(trace) then
      match input
      case Cancel => [CaptureStopped, Stopped]
      case BackoffOver(CreateFails, now) => AfterFailure(trace, reconnected, now)
      case BackoffOver(ConnectFails, now) => [SessionCreated] + AfterFailure(trace, reconnected, now)
      case BackoffOver(PairingAgain, now) => [SessionCreated, CaptureStopped, Failed(PairingRequested), Stopped]
      case BackoffOver(SetupFails, now) => [SessionCreated, CandidateStopped] + AfterFailure(trace, reconnected, now)
      case BackoffOver(Established, now) => [SessionCreated, SessionUp(SessionsUp(trace))]
      case _ => []
    else []
  }

  // The state, told from the trace.
  ghost predicate Mirrors(s: State, reconnected: Option<nat>) {
    && s.sessions > 0 && SessionsUp(s.trace) == s.sessions && s.lastFailureAt == reconnected
    && (s.phase == Live <==> SessionIsUp(s.trace)) && (s.phase == Waiting <==> IsBackingOff(s.trace))
    && (s.phase == Over <==> HasEnded(s.trace))
    && (s.phase != Over ==> s.failures == LastAttempt(s.trace) <= 5)
  }

  lemma TellOne(trace: seq<Action>, a: Action)
    ensures LastAttempt(trace + [a]) == (if a.Reconnecting? then a.attempt else LastAttempt(trace))
    ensures SessionsUp(trace + [a]) == SessionsUp(trace) + (if a.SessionUp? then 1 else 0)
  {
    assert (trace + [a])[..|trace|] == trace;
  }

  lemma Powers()
    ensures Pow2(0) == 1 && Pow2(1) == 2 && Pow2(2) == 4 && Pow2(3) == 8 && Pow2(4) == 16
  {
    assert Pow2(1) == 2 * Pow2(0) && Pow2(2) == 2 * Pow2(1) && Pow2(3) == 2 * Pow2(2) && Pow2(4) == 2 * Pow2(3);
  }

  lemma FinishMirrors(s: State, error: Option<Reason>, reconnected: Option<nat>)
    requires s.sessions > 0 && SessionsUp(s.trace) == s.sessions && s.lastFailureAt == reconnected
    ensures Mirrors(Finish(s, error), reconnected)
    ensures Finish(s, error).trace
         == s.trace + if error.Some? then [CaptureStopped, Failed(error.value), Stopped] else [CaptureStopped, Stopped]
  {
    hide SessionsUp, LastAttempt;
    var one := s.trace + [CaptureStopped];
    TellOne(s.trace, CaptureStopped);
    if error.Some? {
      TellOne(one, Failed(error.value));
      TellOne(one + [Failed(error.value)], Stopped);
      assert Finish(s, error).trace == one + [Failed(error.value)] + [Stopped];
    } else {
      TellOne(one, Stopped);
      assert Finish(s, error).trace == one + [Stopped];
    }
  }

  // One more failure, from a trace on which the last attempt is the count.
  lemma ReconnectShows(s: State, now: nat, reconnected: Option<nat>)
    requires s.sessions > 0 && SessionsUp(s.trace) == s.sessions && s.lastFailureAt == reconnected
    requires s.failures == LastAttempt(s.trace) <= 5
    ensures Mirrors(Reconnect(s, now), reconnected)
    ensures Reconnect(s, now).trace == s.trace + AfterFailure(s.trace, reconnected, now)
  {
    hide SessionsUp, LastAttempt, Pow2, Finish;
    Powers();
    ReconnectIs(s, now);
    var attempt := NextAttempt(s.trace, reconnected, now);
    if attempt > 5 {
      FinishMirrors(s.(failures := attempt), Some(GaveUp), reconnected);
    } else {
      TellOne(s.trace, Reconnecting(attempt, Pow2(attempt - 1)));
    }
  }

  lemma LiveShows(s: State, input: Input, reconnected: Option<nat>)
    requires Mirrors(s, reconnected) && s.phase == Live
    ensures Mirrors(Step(s, input), reconnected)
    ensures Step(s, input).trace == s.trace + Brings(s.trace, reconnected, input)
  {
    hide SessionsUp, LastAttempt, Reconnect, Finish, AfterFailure;
    var stop := SessionStopped(s.sessions - 1);
    var stopped := StopSession(s);
    TellOne(s.trace, stop);
    match input {
      case Cancel =>
        FinishMirrors(stopped, None, reconnected);
        assert s.trace + [stop] + [CaptureStopped, Stopped] == s.trace + ([stop] + [CaptureStopped, Stopped]);
      case FrameSent(alive, now) =>
        if !alive {
          ReconnectShows(stopped, now, reconnected);
          SameFailure(s.trace, stopped.trace, reconnected, now);
          var more := AfterFailure(s.trace, reconnected, now);
          assert s.trace + [stop] + more == s.trace + ([stop] + more);
        } else {
          assert s.trace + [] == s.trace;
        }
      case FrameFails(reason) =>
        FinishMirrors(stopped, Some(reason), reconnected);
        var more := [CaptureStopped, Failed(reason), Stopped];
        assert s.trace + [stop] + more == s.trace + ([stop] + more);
      case _ => assert s.trace + [] == s.trace;
    }
  }

  lemma SameFailure(a: seq<Action>, b: seq<Action>, reconnected: Option<nat>, now: nat)
    requires LastAttempt(a) == LastAttempt(b)
    ensures AfterFailure(a, reconnected, now) == AfterFailure(b, reconnected, now)
  {
    hide LastAttempt;
  }

  lemma WaitingShows(s: State, input: Input, reconnected: Option<nat>)
    requires Mirrors(s, reconnected) && s.phase == Waiting && !(input.BackoffOver? && input.outcome.Established?)
    ensures Mirrors(Step(s, input), reconnected)
    ensures Step(s, input).trace == s.trace + Brings(s.trace, reconnected, input)
  {
    hide SessionsUp, LastAttempt, Reconnect, Finish, AfterFailure;
    var created := s.trace + [SessionCreated];
    TellOne(s.trace, SessionCreated);
    match input {
      case Cancel => FinishMirrors(s, None, reconnected);
      case Audio => assert s.trace + [] == s.trace;
      case FrameSent(_, _) => assert s.trace + [] == s.trace;
      case FrameFails(_) => assert s.trace + [] == s.trace;
      case BackoffOver(CreateFails, now) => ReconnectShows(s, now, reconnected);
      case BackoffOver(ConnectFails, now) =>
        ReconnectShows(s.(trace := created), now, reconnected);
        SameFailure(s.trace, created, reconnected, now);
        var more := AfterFailure(s.trace, reconnected, now);
        assert created + more == s.trace + ([SessionCreated] + more);
      case BackoffOver(PairingAgain, now) =>
        FinishMirrors(s.(trace := created), Some(PairingRequested), reconnected);
        var more := [CaptureStopped, Failed(PairingRequested), Stopped];
        assert created + more == s.trace + ([SessionCreated] + more);
      case BackoffOver(SetupFails, now) =>
        TellOne(created, CandidateStopped);
        var dropped := s.trace + [SessionCreated, CandidateStopped];
        assert dropped == created + [CandidateStopped];
        ReconnectShows(s.(trace := dropped), now, reconnected);
        SameFailure(s.trace, dropped, reconnected, now);
        var more := AfterFailure(s.trace, reconnected, now);
        assert dropped + more == s.trace + ([SessionCreated, CandidateStopped] + more);
      case BackoffOver(Established, _) =>
    }
  }

  lemma EstablishedShows(s: State, now: nat, reconnected: Option<nat>)
    requires Mirrors(s, reconnected) && s.phase == Waiting
    ensures var input := BackoffOver(Established, now);
      && Mirrors(Step(s, input), Some(now))
      && Step(s, input).trace == s.trace + Brings(s.trace, reconnected, input)
  {
    hide SessionsUp, LastAttempt;
    var created := s.trace + [SessionCreated];
    TellOne(s.trace, SessionCreated);
    TellOne(created, SessionUp(s.sessions));
    assert s.trace + [SessionCreated, SessionUp(s.sessions)] == created + [SessionUp(s.sessions)];
  }

  lemma InitialMirrors()
    ensures Mirrors(INITIAL, None)
  {
    assert INITIAL.trace[..1] == [SessionUp(0)] && [SessionUp(0)][..0] == [];
    assert LastAttempt([SessionUp(0)]) == 0 && SessionsUp([SessionUp(0)]) == 1;
  }

  lemma {:induction false} RunMirrors(inputs: seq<Input>)
    ensures Mirrors(Run(INITIAL, inputs), LastReconnect(inputs))
    ensures inputs != [] ==>
      var init, last := inputs[..|inputs| - 1], inputs[|inputs| - 1];
      var before := Run(INITIAL, init).trace;
      Run(INITIAL, inputs).trace == before + Brings(before, LastReconnect(init), last)
    decreases |inputs|
  {
    hide Mirrors, Step, Brings;
    if inputs == [] {
      InitialMirrors();
    } else {
      var init, last := inputs[..|inputs| - 1], inputs[|inputs| - 1];
      RunMirrors(init);
      RunSnoc(INITIAL, init, last);
      assert inputs == init + [last];
      StepShows(Run(INITIAL, init), last, LastReconnect(init));
    }
  }

  lemma StepShows(s: State, input: Input, reconnected: Option<nat>)
    requires Mirrors(s, reconnected)
    ensures Step(s, input).trace == s.trace + Brings(s.trace, reconnected, input)
    ensures Mirrors(Step(s, input),
                    if input.BackoffOver? && input.outcome.Established? && IsBackingOff(s.trace) then Some(input.now)
                    else reconnected)
  {
    hide SessionsUp, LastAttempt;
    if s.phase == Live {
      LiveShows(s, input, reconnected);
    } else if s.phase == Waiting {
      if input.BackoffOver? && input.outcome.Established? {
        EstablishedShows(s, input.now, reconnected);
      } else {
        WaitingShows(s, input, reconnected);
      }
    } else {
      assert s.trace + [] == s.trace;
    }
  }

  // In every run each answer brings about exactly the actions of the table
  // above, and the run starts with the first session up.
  lemma EveryAnswer(inputs: seq<Input>, last: Input)
    ensures Run(INITIAL, []).trace == [SessionUp(0), Started]
    ensures var before := Run(INITIAL, inputs).trace;
      Run(INITIAL, inputs + [last]).trace == before + Brings(before, LastReconnect(inputs), last)
  {
    RunMirrors(inputs + [last]);
    assert (inputs + [last])[..|inputs|] == inputs;
  }

  // The answers that end a run, and the error each reports: none when the user
  // cancels, live or backing off; the reason given when a frame fails; the
  // pairing when one is asked for again; giving up when the session dies or an
  // attempt fails with five announced.
  ghost predicate EndedBy(before: seq<Action>, reconnected: Option<nat>, last: Input, events: seq<Action>) {
    && (last.Cancel? ==> events == Events(before) + [Stopped])
    && (last.FrameFails? ==> SessionIsUp(before) && events == Events(before) + [Failed(last.reason), Stopped])
    && (last.BackoffOver? && last.outcome.PairingAgain? ==>
          IsBackingOff(before) && events == Events(before) + [Failed(PairingRequested), Stopped])
    && ((last.FrameSent? && !last.alive) || FailedAttempt(last) ==>
          NextAttempt(before, reconnected, TimeOf(last)) == 6 && events == Events(before) + [Failed(GaveUp), Stopped])
    && (last.Cancel? || last.FrameFails? || (last.BackoffOver? && last.outcome.PairingAgain?)
        || (last.FrameSent? && !last.alive) || FailedAttempt(last))
  }

  ghost predicate NoEnding(events: seq<Action>) {
    forall a :: a in events ==> !a.Failed? && !a.Stopped?
  }

  // How a run ends: answer `k` ends it in one of those ways, and before it
  // there was neither an error nor a stop.
  lemma {:induction false} HowItEnds(inputs: seq<Input>) returns (k: nat)
    requires Run(INITIAL, inputs).phase == Over
    ensures k < |inputs| && Run(INITIAL, inputs[..k]).phase != Over
    ensures EndedBy(Run(INITIAL, inputs[..k]).trace, LastReconnect(inputs[..k]), inputs[k],
                    Events(Run(INITIAL, inputs).trace))
    ensures NoEnding(Events(Run(INITIAL, inputs[..k]).trace))
    decreases |inputs|
  {
    hide Events, Run, Brings, LastAttempt, EndedBy, NoEnding, LastReconnect, Mirrors;
    RunEmpty();
    var init, last := inputs[..|inputs| - 1], inputs[|inputs| - 1];
    RunMirrors(init);
    RunMirrors(inputs);
    StateTold(Run(INITIAL, init), LastReconnect(init));
    StateTold(Run(INITIAL, inputs), LastReconnect(inputs));
    if Run(INITIAL, init).phase == Over {
      k := HowItEnds(init);
      EndedAdds(Run(INITIAL, init).trace, LastReconnect(init), last);
      assert init[..k] == inputs[..k] && init[k] == inputs[k];
    } else {
      k := |inputs| - 1;
      EndingAnswer(Run(INITIAL, init).trace, LastReconnect(init), last);
      NoneBefore(init);
    }
  }

  lemma StateTold(s: State, reconnected: Option<nat>)
    requires Mirrors(s, reconnected)
    ensures s.phase == Over <==> HasEnded(s.trace)
    ensures s.phase != Over ==> LastAttempt(s.trace) <= 5
  {
    hide LastAttempt, SessionsUp;
  }

  lemma NoneBefore(inputs: seq<Input>)
    requires Run(INITIAL, inputs).phase != Over
    ensures NoEnding(Events(Run(INITIAL, inputs).trace))
  {
    hide Events, Run, SessionActions, CaptureStops, CreatedWhenNoneUp;
    EveryRun(inputs);
  }

  lemma RunEmpty()
    ensures Run(INITIAL, []) == INITIAL
  {
  }

  lemma EndedAdds(trace: seq<Action>, reconnected: Option<nat>, input: Input)
    requires HasEnded(trace)
    ensures trace + Brings(trace, reconnected, input) == trace
  {
  }

  // The answers after which a trace has ended, and the events they add.
  lemma EndingAnswer(trace: seq<Action>, reconnected: Option<nat>, input: Input)
    requires !HasEnded(trace) && LastAttempt(trace) <= 5 && HasEnded(trace + Brings(trace, reconnected, input))
    ensures EndedBy(trace, reconnected, input, Events(trace + Brings(trace, reconnected, input)))
  {
    hide Events, SessionsUp, LastAttempt, AfterFailure, NextAttempt;
    var more := Brings(trace, reconnected, input);
    assert trace + [] == trace;
    assert more != [] && more[|more| - 1] == Stopped;
    var now := TimeOf(input);
    FailureEnds(trace, reconnected, now);
    var stop := [SessionStopped(if SessionsUp(trace) > 0 then SessionsUp(trace) - 1 else 0)];
    EndingEvents(trace, stop, if input.FrameFails? then input.reason else GaveUp);
  }

  // One more failure ends a trace exactly when five are announced.
  lemma FailureEnds(trace: seq<Action>, reconnected: Option<nat>, now: nat)
    requires LastAttempt(trace) <= 5
    ensures var more := AfterFailure(trace, reconnected, now);
      && more != []
      && (more[|more| - 1] == Stopped ==>
            NextAttempt(trace, reconnected, now) == 6 && more == [CaptureStopped, Failed(GaveUp), Stopped])
  {
    hide LastAttempt;
  }

  // The events of all endings there are.
  lemma EndingEvents(trace: seq<Action>, stop: seq<Action>, reason: Reason)
    requires |stop| == 1 && stop[0].SessionStopped?
    ensures Events(trace + (stop + [CaptureStopped, Stopped])) == Events(trace) + [Stopped]
    ensures Events(trace + [CaptureStopped, Stopped]) == Events(trace) + [Stopped]
    ensures Events(trace + (stop + [CaptureStopped, Failed(reason), Stopped])) == Events(trace) + [Failed(reason), Stopped]
    ensures Events(trace + [CaptureStopped, Failed(GaveUp), Stopped]) == Events(trace) + [Failed(GaveUp), Stopped]
    ensures Events(trace + ([SessionCreated] + [CaptureStopped, Failed(GaveUp), Stopped]))
         == Events(trace) + [Failed(GaveUp), Stopped]
    ensures Events(trace + ([SessionCreated, CandidateStopped] + [CaptureStopped, Failed(GaveUp), Stopped]))
         == Events(trace) + [Failed(GaveUp), Stopped]
    ensures Events(trace + [SessionCreated, CaptureStopped, Failed(PairingRequested), Stopped])
         == Events(trace) + [Failed(PairingRequested), Stopped]
  {
    hide Events;
    var none: seq<Action> := [];
    EndsQuietly(trace, stop);
    EndsQuietly(trace, none);
    EndsWith(trace, stop, reason);
    EndsWith(trace, none, GaveUp);
    EndsWith(trace, [SessionCreated], GaveUp);
    EndsWith(trace, [SessionCreated, CandidateStopped], GaveUp);
    EndsWith(trace, [SessionCreated], PairingRequested);
    assert none + [CaptureStopped, Stopped] == [CaptureStopped, Stopped];
    assert none + [CaptureStopped, Failed(GaveUp), Stopped] == [CaptureStopped, Failed(GaveUp), Stopped];
    assert [SessionCreated] + [CaptureStopped, Failed(PairingRequested), Stopped]
        == [SessionCreated, CaptureStopped, Failed(PairingRequested), Stopped];
  }

  // The events that an ending adds, after actions that are none.
  lemma EndsQuietly(trace: seq<Action>, prefix: seq<Action>)
    requires forall i :: 0 <= i < |prefix| ==> !IsEvent(prefix[i])
    ensures Events(trace + (prefix + [CaptureStopped, Stopped])) == Events(trace) + [Stopped]
  {
    hide Events;
    NoEvents(prefix);
    ProjectionsConcat(trace, prefix);
    EventAdded(trace + prefix, CaptureStopped);
    EventAdded(trace + prefix + [CaptureStopped], Stopped);
    assert trace + (prefix + [CaptureStopped, Stopped]) == trace + prefix + [CaptureStopped] + [Stopped];
  }

  lemma EndsWith(trace: seq<Action>, prefix: seq<Action>, reason: Reason)
    requires forall i :: 0 <= i < |prefix| ==> !IsEvent(prefix[i])
    ensures Events(trace + (prefix + [CaptureStopped, Failed(reason), Stopped])) == Events(trace) + [Failed(reason), Stopped]
  {
    hide Events;
    NoEvents(prefix);
    ProjectionsConcat(trace, prefix);
    var stopped := trace + prefix + [CaptureStopped];
    EventAdded(trace + prefix, CaptureStopped);
    EventAdded(stopped, Failed(reason));
    EventAdded(stopped + [Failed(reason)], Stopped);
    assert trace + (prefix + [CaptureStopped, Failed(reason), Stopped]) == stopped + [Failed(reason)] + [Stopped];
  }

  lemma {:induction false} NoEvents(actions: seq<Action>)
    requires forall i :: 0 <= i < |actions| ==> !IsEvent(actions[i])
    ensures Events(actions) == []
  {
    if actions != [] {
      NoEvents(actions[..|actions| - 1]);
    }
  }
}
