/**
 The development loop: long-lived stages under a supervisor, one latched shutdown request, and an escalating stop.
 Everything between two awaits is one step; stages exit, signals arrive and grace periods end in any order.
 */
module DevLoop {
  import opened Outcomes

  type Stage = nat

  datatype Signal = SIGINT | SIGTERM | SIGKILL

  /** The latched request: exit code, and the first signal to send to the stages if there is one. */
  datatype Request = Request(code: int, signal: Option<Signal>)

  datatype Stale = Stale(stage: Stage, code: Option<int>)

  /** How far `stop` has come: the escalation step it awaits, the final kill, or its end. */
  datatype Phase =
    | Idle
    | Awaiting(step: nat, awaited: set<Stage>)
    | Killing(awaited: set<Stage>)
    | Stopped

  datatype State = State(
    live: set<Stage>,
    stopping: bool,
    requested: Option<Request>,
    phase: Phase,
    stale: seq<Stale>,
    sent: map<Stage, seq<Signal>>)

  datatype Event =
    | Interrupt
    | Terminate
    | Added(stage: Stage)
    | Exited(stage: Stage, code: Option<int>)
    | StopBegins
    | GraceEnds
    | AwaitedExited

  function Initial(): State {
    State({}, false, None, Idle, [], map[])
  }

  // ---------- One step ----------

  /** Only the first request counts. */
  function RequestShutdown(s: State, code: int, signal: Option<Signal>): State {
    if s.requested.Some? then s else s.(requested := Some(Request(code, signal)))
  }

  /** Escalation steps; None is the terminal's own delivery, already made. */
  function Escalation(first: Option<Signal>): (steps: seq<Option<Signal>>)
    ensures 1 <= |steps| <= 2
  {
    [first] + if first == Some(SIGTERM) then [] else [Some(SIGTERM)]
  }

  function SendAll(s: State, signal: Signal): State {
    s.(sent := map t | t in s.sent.Keys + s.live :: SentTo(s, t) + if t in s.live then [signal] else [])
  }

  function SentTo(s: State, t: Stage): seq<Signal> {
    if t in s.sent then s.sent[t] else []
  }

  /** Run `stop` from the start of an escalation step to its next await. */
  function Proceed(s: State, steps: seq<Option<Signal>>, step: nat): State {
    if step < |steps| then
      if s.live == {} then s.(phase := Stopped)
      else (if steps[step].Some? then SendAll(s, steps[step].value) else s).(phase := Awaiting(step, s.live))
    else SendAll(s, SIGKILL).(phase := Killing(s.live))
  }

  predicate Enabled(s: State, e: Event) {
    match e
    case Interrupt => true
    case Terminate => true
    case Added(t) => s.phase.Idle? && t !in s.live && t !in s.sent
    case Exited(t, _) => t in s.live
    case StopBegins => s.phase.Idle? && s.requested.Some?
    case GraceEnds => s.phase.Awaiting?
    case AwaitedExited => (s.phase.Awaiting? || s.phase.Killing?) && s.phase.awaited !! s.live
  }

  function Next(s: State, e: Event): State
    requires Enabled(s, e)
  {
    match e
    case Interrupt => RequestShutdown(s, 130, None)
    case Terminate => RequestShutdown(s, 0, Some(SIGTERM))
    case Added(t) => s.(live := s.live + {t})
    case Exited(t, code) =>
      var gone := s.(live := s.live - {t});
      if s.stopping then gone
      else RequestShutdown(gone.(stale := s.stale + [Stale(t, code)]), 1, Some(SIGTERM))
    case StopBegins => Proceed(s.(stopping := true), Escalation(s.requested.value.signal), 0)
    case GraceEnds => ProceedAfter(s)
    case AwaitedExited => if s.phase.Killing? then s.(phase := Stopped) else ProceedAfter(s)
  }

  function ProceedAfter(s: State): State
    requires s.phase.Awaiting?
  {
    var first := if s.requested.Some? then s.requested.value.signal else None;
    Proceed(s, Escalation(first), s.phase.step + 1)
  }

  // ---------- The running program ----------

  class StageSupervisor {
    var live: set<Stage>
    var stopping: bool
    var requested: Option<Request>
    var phase: Phase
    ghost var stale: seq<Stale>
    ghost var sent: map<Stage, seq<Signal>>

    ghost function View(): State
      reads this
    {
      State(live, stopping, requested, phase, stale, sent)
    }

    constructor ()
      ensures View() == Initial()
    {
      live, stopping, requested, phase, stale, sent := {}, false, None, Idle, [], map[];
    }

    method LatchRequest(code: int, signal: Option<Signal>)
      modifies this
      ensures View() == RequestShutdown(old(View()), code, signal)
    {
      if requested.Some? {
        return;
      }
      requested := Some(Request(code, signal));
    }

    method Add(t: Stage)
      requires Enabled(View(), Added(t))
      modifies this
      ensures View() == Next(old(View()), Added(t))
    {
      live := live + {t};
    }

    /** A stage's exit: it is no longer live, and reported if no stop was requested yet. */
    method OnExit(t: Stage, code: Option<int>)
      requires Enabled(View(), Exited(t, code))
      modifies this
      ensures View() == Next(old(View()), Exited(t, code))
    {
      live := live - {t};
      if !stopping {
        stale := stale + [Stale(t, code)];
        LatchRequest(1, Some(SIGTERM));
      }
    }

    method KillLive(signal: Signal)
      modifies this`sent
      ensures View() == SendAll(old(View()), signal)
    {
      sent := SendAll(View(), signal).sent;
    }

    /** `stop` up to its first await. */
    method BeginStop()
      requires Enabled(View(), StopBegins)
      modifies this
      ensures View() == Next(old(View()), StopBegins)
    {
      stopping := true;
      Escalate(Escalation(requested.value.signal), 0);
    }

    method Escalate(steps: seq<Option<Signal>>, step: nat)
      modifies this
      ensures View() == Proceed(old(View()), steps, step)
    {
      if step < |steps| {
        if live == {} {
          phase := Stopped;
          return;
        }
        if steps[step].Some? {
          KillLive(steps[step].value);
        }
        phase := Awaiting(step, live);
      } else {
        KillLive(SIGKILL);
        phase := Killing(live);
      }
    }

    /** The race between the stages' exits and the grace period is decided. */
    method Settle(e: Event)
      requires (e.GraceEnds? || e.AwaitedExited?) && Enabled(View(), e)
      modifies this
      ensures View() == Next(old(View()), e)
    {
      if phase.Killing? {
        phase := Stopped;
      } else {
        Escalate(Escalation(if requested.Some? then requested.value.signal else None), phase.step + 1);
      }
    }
  }

  // ---------- Runs ----------

  ghost predicate Trace(es: seq<Event>)
    decreases |es|, 1
  {
    es == [] || (var n := |es| - 1; Trace(es[..n]) && Enabled(Run(es[..n]), es[n]))
  }

  ghost function Run(es: seq<Event>): State
    requires Trace(es)
    decreases |es|, 2
  {
    if es == [] then Initial()
    else var n := |es| - 1; Next(Run(es[..n]), es[n])
  }

  /** Signals of the first n escalation steps, in order. */
  function SignalsOf(steps: seq<Option<Signal>>, n: nat): seq<Signal>
    requires n <= |steps|
  {
    if n == 0 then [] else SignalsOf(steps, n - 1) + if steps[n - 1].Some? then [steps[n - 1].value] else []
  }

  /** Every signal a stage can see, in escalation order. */
  function FullEscalation(first: Option<Signal>): seq<Signal> {
    SignalsOf(Escalation(first), |Escalation(first)|) + [SIGKILL]
  }

  /** What a stage that is still live has been sent by now. */
  function DueSignals(s: State, first: Option<Signal>): seq<Signal> {
    match s.phase
    case Idle => []
    case Awaiting(step, _) => SignalsOf(Escalation(first), if step < |Escalation(first)| then step + 1 else 0)
    case Killing(_) => FullEscalation(first)
    case Stopped => []
  }

  ghost predicate Invariant(s: State) {
    && (s.stopping <==> !s.phase.Idle?)
    && (s.stopping || s.stale != [] ==> s.requested.Some?)
    && (s.phase.Idle? ==> s.sent == map[])
    && (s.phase.Stopped? ==> s.live == {})
    && (s.phase.Awaiting? || s.phase.Killing? ==> s.live <= s.phase.awaited)
    && (s.phase.Awaiting? ==> s.phase.step < |Escalation(s.requested.value.signal)|)
    && (s.stopping ==> SignalsInOrder(s, s.requested.value.signal))
  }

  /** Live stages have been sent exactly the escalation so far; exited ones a beginning of it. */
  ghost predicate SignalsInOrder(s: State, first: Option<Signal>) {
    && (forall t :: t in s.live ==> SentTo(s, t) == DueSignals(s, first))
    && (forall t :: t in s.sent ==> s.sent[t] <= FullEscalation(first))
  }

  lemma {:induction false} SignalsGrow(steps: seq<Option<Signal>>, n: nat, m: nat)
    requires n <= m <= |steps|
    ensures SignalsOf(steps, n) <= SignalsOf(steps, m)
  {
    if n < m {
      SignalsGrow(steps, n, m - 1);
    }
  }

  /** Sending one more signal to the live stages, which have all been sent the same, keeps everyone in escalation order. */
  lemma SendKeepsOrder(s: State, signal: Signal, due: seq<Signal>, full: seq<Signal>)
    requires forall t :: t in s.live ==> SentTo(s, t) == due
    requires forall t :: t in s.sent ==> s.sent[t] <= full
    requires due + [signal] <= full
    ensures var s' := SendAll(s, signal);
      && (forall t :: t in s.live ==> SentTo(s', t) == due + [signal])
      && (forall t :: t in s'.sent ==> s'.sent[t] <= full)
  {
    var s' := SendAll(s, signal);
    forall t | t in s'.sent ensures s'.sent[t] <= full {
      if t !in s.live {
        assert s'.sent[t] == s.sent[t] + [] == s.sent[t];
      }
    }
  }

  /** One escalation step keeps the signals in order. */
  lemma ProceedKeeps(s: State, first: Option<Signal>, step: nat)
    requires s.stopping && s.requested.Some? && s.requested.value.signal == first
    requires step <= |Escalation(first)|
    requires forall t :: t in s.live ==> SentTo(s, t) == SignalsOf(Escalation(first), step)
    requires forall t :: t in s.sent ==> s.sent[t] <= FullEscalation(first)
    ensures Invariant(Proceed(s, Escalation(first), step))
  {
    var steps := Escalation(first);
    var due := SignalsOf(steps, step);
    if step == |steps| {
      SendKeepsOrder(s, SIGKILL, due, FullEscalation(first));
    } else if s.live != {} {
      SignalsGrow(steps, step + 1, |steps|);
      if steps[step].Some? {
        SendKeepsOrder(s, steps[step].value, due, FullEscalation(first));
      } else {
        assert due + [] == due;
      }
    }
  }

  lemma ExitKeeps(s: State, t: Stage, code: Option<int>)
    requires Invariant(s) && t in s.live
    ensures Invariant(Next(s, Exited(t, code)))
  {
    if s.stopping {
      assert Next(s, Exited(t, code)).phase == s.phase;
    }
  }

  /** The awaited stages are gone or their grace period is over: the next escalation step keeps the invariant. */
  lemma ProceedAfterKeeps(s: State)
    requires Invariant(s) && s.phase.Awaiting?
    ensures Invariant(ProceedAfter(s))
  {
    ProceedKeeps(s, s.requested.value.signal, s.phase.step + 1);
  }

  lemma StepKeeps(s: State, e: Event)
    requires Invariant(s) && Enabled(s, e)
    ensures Invariant(Next(s, e))
  {
    match e
    case StopBegins => ProceedKeeps(s.(stopping := true), s.requested.value.signal, 0);
    case GraceEnds => ProceedAfterKeeps(s);
    case AwaitedExited =>
      if s.phase.Awaiting? {
        ProceedAfterKeeps(s);
      }
    case Exited(t, code) => ExitKeeps(s, t, code);
    case _ =>
  }

  lemma {:induction false} EveryRunKeeps(es: seq<Event>)
    requires Trace(es)
    ensures Invariant(Run(es))
  {
    if es != [] {
      var n := |es| - 1;
      EveryRunKeeps(es[..n]);
      StepKeeps(Run(es[..n]), es[n]);
    }
  }

  lemma {:induction false} TracePrefix(es: seq<Event>, n: nat)
    requires Trace(es) && n <= |es|
    ensures Trace(es[..n])
    decreases |es|
  {
    if n < |es| {
      TracePrefix(es[..|es| - 1], n);
      assert es[..|es| - 1][..n] == es[..n];
    } else {
      assert es[..n] == es;
    }
  }

  lemma StepLatches(s: State, e: Event)
    requires Enabled(s, e)
    ensures s.requested.Some? ==> Next(s, e).requested == s.requested
    ensures s.stopping ==> Next(s, e).stopping && Next(s, e).stale == s.stale
  {
  }

  /**
   From any point of a run on: a shutdown request already made is final, code and signal; and once stop has begun,
   no stage is reported as stale.
   */
  lemma {:induction false} Latches(es: seq<Event>, n: nat)
    requires Trace(es) && n <= |es|
    ensures Trace(es[..n])
    ensures Run(es[..n]).requested.Some? ==> Run(es).requested == Run(es[..n]).requested
    ensures Run(es[..n]).stopping ==> Run(es).stopping && Run(es).stale == Run(es[..n]).stale
    decreases |es|
  {
    TracePrefix(es, n);
    if n < |es| {
      var last := |es| - 1;
      Latches(es[..last], n);
      StepLatches(Run(es[..last]), es[last]);
      assert es[..last][..n] == es[..n];
    } else {
      assert es[..n] == es;
    }
  }

  /** A stage that has exited is sent nothing more. */
  lemma ExitedHearNothing(s: State, e: Event, t: Stage)
    requires Enabled(s, e) && t !in s.live
    ensures SentTo(Next(s, e), t) == SentTo(s, t)
  {
  }

  // ---------- Runs in terms of their events ----------

  /** A terminal's Ctrl-C exits with 130 and sends no first signal; SIGTERM exits with 0, a stage's own exit with 1. */
  function RequestBy(e: Event): Option<Request> {
    match e
    case Interrupt => Some(Request(130, None))
    case Terminate => Some(Request(0, Some(SIGTERM)))
    case Exited(_, _) => Some(Request(1, Some(SIGTERM)))
    case _ => None
  }

  /** The code and the first signal are those of the first event that asks for a shutdown, and of no later one. */
  lemma {:induction false} FirstEventDecides(es: seq<Event>)
    requires Trace(es)
    ensures (forall i :: 0 <= i < |es| ==> RequestBy(es[i]) == None) ==> Run(es).requested == None
    ensures forall i :: 0 <= i < |es| && RequestBy(es[i]).Some? && (forall k :: 0 <= k < i ==> RequestBy(es[k]) == None) ==>
      Run(es).requested == RequestBy(es[i])
  {
    if es != [] {
      var n := |es| - 1;
      var front := es[..n];
      FirstEventDecides(front);
      EveryRunKeeps(front);
      StepRequests(Run(front), es[n]);
      forall i | 0 <= i < |es| && RequestBy(es[i]).Some? && (forall k :: 0 <= k < i ==> RequestBy(es[k]) == None)
        ensures Run(es).requested == RequestBy(es[i])
      {
        if i < n {
          assert front[i] == es[i] && forall k :: 0 <= k < i ==> front[k] == es[k];
        } else {
          assert forall k :: 0 <= k < n ==> front[k] == es[k];
        }
      }
    }
  }

  lemma StepRequests(s: State, e: Event)
    requires Invariant(s) && Enabled(s, e)
    ensures Next(s, e).requested == if s.requested.Some? then s.requested else RequestBy(e)
  {
  }

  /** The stage was added, and has not exited since. */
  predicate StillRuns(es: seq<Event>, t: Stage) {
    es != [] && match es[|es| - 1]
      case Added(u) => u == t || StillRuns(es[..|es| - 1], t)
      case Exited(u, _) => u != t && StillRuns(es[..|es| - 1], t)
      case _ => StillRuns(es[..|es| - 1], t)
  }

  /** The exits before `stop` began, in order. */
  function ExitsBeforeStop(es: seq<Event>): seq<Stale> {
    if es == [] then []
    else
      var front, last := es[..|es| - 1], es[|es| - 1];
      ExitsBeforeStop(front) + if last.Exited? && StopBegins !in front then [Stale(last.stage, last.code)] else []
  }

  /** Live are the stages that still run, and reported exactly the exits before `stop` began. */
  lemma {:induction false} ReportsExitsBeforeStop(es: seq<Event>)
    requires Trace(es)
    ensures Run(es).stopping <==> StopBegins in es
    ensures Run(es).stale == ExitsBeforeStop(es)
    ensures forall t :: t in Run(es).live <==> StillRuns(es, t)
  {
    if es != [] {
      var n := |es| - 1;
      ReportsExitsBeforeStop(es[..n]);
      assert es == es[..n] + [es[n]];
      StepReports(Run(es[..n]), es[n]);
    }
  }

  lemma StepReports(s: State, e: Event)
    requires Enabled(s, e)
    ensures Next(s, e).stopping <==> s.stopping || e.StopBegins?
    ensures Next(s, e).stale == s.stale + if e.Exited? && !s.stopping then [Stale(e.stage, e.code)] else []
    ensures forall t :: t in Next(s, e).live <==>
      e == Added(t) || (t in s.live && !(e.Exited? && e.stage == t))
  {
  }

  /** What stages can be sent, at most and at first: SIGTERM and then SIGKILL, after the first signal if that is another. */
  lemma SignalsByFirst(first: Option<Signal>)
    ensures FullEscalation(None) == [SIGTERM, SIGKILL]
    ensures FullEscalation(Some(SIGTERM)) == [SIGTERM, SIGKILL]
    ensures FullEscalation(Some(SIGINT)) == [SIGINT, SIGTERM, SIGKILL]
    ensures SignalsOf(Escalation(None), 1) == []
    ensures SignalsOf(Escalation(Some(SIGTERM)), 1) == [SIGTERM]
    ensures SignalsOf(Escalation(Some(SIGINT)), 1) == [SIGINT]
  {
    TwoSteps(Escalation(None));
    TwoSteps(Escalation(Some(SIGTERM)));
    TwoSteps(Escalation(Some(SIGINT)));
  }

  lemma TwoSteps(steps: seq<Option<Signal>>)
    requires steps != []
    ensures SignalsOf(steps, 1) == if steps[0].Some? then [steps[0].value] else []
    ensures |steps| == 2 ==> SignalsOf(steps, 2) == SignalsOf(steps, 1) + if steps[1].Some? then [steps[1].value] else []
  {
    assert SignalsOf(steps, 0) == [];
  }

  /** What the program exits with and leaves behind: the first request's code, and no live stage. */
  lemma StopLeavesNothingRunning(es: seq<Event>)
    requires Trace(es) && Run(es).phase.Stopped?
    ensures Run(es).live == {} && Run(es).requested.Some?
    ensures forall t :: t in Run(es).sent ==> Run(es).sent[t] <= FullEscalation(Run(es).requested.value.signal)
  {
    EveryRunKeeps(es);
  }

  /** Stop cannot stall while awaited stages exit: after the last awaited exit its next step is enabled. */
  lemma StopProceeds(es: seq<Event>)
    requires Trace(es) && (Run(es).phase.Awaiting? || Run(es).phase.Killing?) && Run(es).live == {}
    ensures Enabled(Run(es), AwaitedExited) && Next(Run(es), AwaitedExited).phase != Run(es).phase
    ensures var s := Next(Run(es), AwaitedExited); s.phase.Stopped? || s.phase.Killing?
  {
    EveryRunKeeps(es);
  }

  // ---------- Readiness of the watchers ----------

  type Watcher = nat

  datatype Readiness = Readiness(initialized: set<Watcher>, initializedBuilds: nat, expectedBuilds: Option<nat>, resolved: bool)

  datatype BuildEvent = BuildSucceeded(watcher: Watcher) | BundlesReturned(count: nat)

  class ReadinessBarrier {
    var initialized: set<Watcher>
    var initializedBuilds: nat
    var expectedBuilds: Option<nat>
    var resolved: bool

    function View(): Readiness
      reads this
    {
      Readiness(initialized, initializedBuilds, expectedBuilds, resolved)
    }

    constructor ()
      ensures View() == Readiness({}, 0, None, false)
    {
      initialized, initializedBuilds, expectedBuilds, resolved := {}, 0, None, false;
    }

    method OnSuccess(w: Watcher)
      modifies this
      ensures View() == Observe(old(View()), BuildSucceeded(w))
    {
      if w in initialized {
        return;
      }
      initialized := initialized + {w};
      initializedBuilds := initializedBuilds + 1;
      if expectedBuilds.Some? && initializedBuilds >= expectedBuilds.value {
        resolved := true;
      }
    }

    method Expect(count: nat)
      modifies this
      ensures View() == Observe(old(View()), BundlesReturned(count))
    {
      expectedBuilds := Some(count);
      if initializedBuilds >= count {
        resolved := true;
      }
    }
  }

  function Observe(r: Readiness, e: BuildEvent): Readiness {
    match e
    case BuildSucceeded(w) =>
      if w in r.initialized then r
      else
        var counted := r.(initialized := r.initialized + {w}, initializedBuilds := r.initializedBuilds + 1);
        if counted.expectedBuilds.Some? && counted.initializedBuilds >= counted.expectedBuilds.value then counted.(resolved := true)
        else counted
    case BundlesReturned(count) =>
      var expecting := r.(expectedBuilds := Some(count));
      if expecting.initializedBuilds >= count then expecting.(resolved := true) else expecting
  }

  function ObserveAll(es: seq<BuildEvent>): Readiness {
    if es == [] then Readiness({}, 0, None, false) else Observe(ObserveAll(es[..|es| - 1]), es[|es| - 1])
  }

  /** Watchers whose build succeeded at least once. */
  function Succeeded(es: seq<BuildEvent>): set<Watcher> {
    if es == [] then {} else Succeeded(es[..|es| - 1]) + BuiltBy(es[|es| - 1])
  }

  function BuiltBy(e: BuildEvent): set<Watcher> {
    if e.BuildSucceeded? then {e.watcher} else {}
  }

  /** The bundle count has been returned. */
  predicate Counted(es: seq<BuildEvent>) {
    es != [] && (Counted(es[..|es| - 1]) || es[|es| - 1].BundlesReturned?)
  }

  ghost predicate Ready(r: Readiness, built: set<Watcher>, counted: bool, count: nat) {
    && r.initialized == built && r.initializedBuilds == |built|
    && r.expectedBuilds == (if counted then Some(count) else None)
    && (r.resolved <==> counted && |built| >= count)
  }

  lemma ObserveKeepsReady(r: Readiness, e: BuildEvent, built: set<Watcher>, counted: bool, count: nat)
    requires Ready(r, built, counted, count) && (e.BundlesReturned? ==> e.count == count)
    ensures Ready(Observe(r, e), built + BuiltBy(e), counted || e.BundlesReturned?, count)
  {
    match e
    case BuildSucceeded(w) =>
      if w in built {
        assert built + {w} == built;
      } else {
        assert |built + {w}| == |built| + 1;
      }
    case BundlesReturned(_) => assert built + {} == built;
  }

  /**
   No lost wakeup: the bundle count is known once, before, between or after the builds, and the barrier is resolved
   exactly when it is known and that many distinct watchers have built.
   */
  lemma {:induction false} ResolvedExactlyWhenReady(es: seq<BuildEvent>, count: nat)
    requires forall e :: e in es && e.BundlesReturned? ==> e.count == count
    ensures Ready(ObserveAll(es), Succeeded(es), Counted(es), count)
  {
    if es != [] {
      var front, last := es[..|es| - 1], es[|es| - 1];
      ResolvedExactlyWhenReady(front, count);
      assert last in es;
      ObserveKeepsReady(ObserveAll(front), last, Succeeded(front), Counted(front), count);
    }
  }
}
