/**
 The limiter behind prefetched help reads, as a step system over the microtask queue. Requests are numbered in the
 order they are made. A slot is granted at once when one is free; otherwise release() hands its slot to the oldest
 waiter, which then needs one microtask more than an immediate grant before its read starts.
 */
module HelpLimiter {
  import opened Outcomes

  type Request = nat

  /** A continuation queued on the event loop. */
  datatype Task =
    | ResumeAcquire(request: Request)
    | ResumeStart(request: Request)

  datatype State = State(
    active: int,
    waiting: seq<Request>,
    micro: seq<Task>,
    running: set<Request>,
    settled: set<Request>,
    aborted: bool,
    requested: nat,
    granted: seq<Request>,
    resumed: seq<Request>,
    started: seq<Request>)

  datatype Event = Requested | Microtask | Settled(request: Request) | Aborted

  function Initial(): State {
    State(0, [], [], {}, {}, false, 0, [], [], [])
  }

  // ---------- One step ----------

  function Acquire(s: State, concurrency: nat, r: Request): State {
    if s.active < concurrency then
      s.(active := s.active + 1, micro := s.micro + [ResumeStart(r)], granted := s.granted + [r])
    else s.(waiting := s.waiting + [r])
  }

  function Release(s: State): State {
    if s.waiting == [] then s.(active := s.active - 1)
    else
      var next := s.waiting[0];
      s.(waiting := s.waiting[1..], micro := s.micro + [ResumeAcquire(next)], granted := s.granted + [next])
  }

  /** The continuation after `await acquire()`: an aborted signal throws, and the finally block releases. */
  function Resume(s: State, r: Request): State {
    var s := s.(resumed := s.resumed + [r]);
    if s.aborted then Release(s.(settled := s.settled + {r}))
    else s.(running := s.running + {r}, started := s.started + [r])
  }

  predicate Enabled(s: State, e: Event) {
    match e
    case Requested => true
    case Microtask => s.micro != []
    case Settled(r) => r in s.running
    case Aborted => true
  }

  function Next(s: State, concurrency: nat, e: Event): State
    requires Enabled(s, e)
  {
    match e
    case Requested => Acquire(s.(requested := s.requested + 1), concurrency, s.requested)
    case Microtask =>
      var rest := s.(micro := s.micro[1..]);
      (match s.micro[0]
       case ResumeAcquire(r) => rest.(micro := rest.micro + [ResumeStart(r)])
       case ResumeStart(r) => Resume(rest, r))
    case Settled(r) => Release(s.(running := s.running - {r}, settled := s.settled + {r}))
    case Aborted => s.(aborted := true)
  }

  // ---------- The running program ----------

  /** The state that one reader shares among all its reads. */
  class Reader {
    const concurrency: nat
    var active: int
    var waiting: seq<Request>
    var aborted: bool
    var prefetched: map<string, Request>
    var micro: seq<Task>
    var requested: nat
    ghost var running: set<Request>
    ghost var settled: set<Request>
    ghost var granted: seq<Request>
    ghost var resumed: seq<Request>
    ghost var started: seq<Request>

    ghost function View(): State
      reads this
    {
      State(active, waiting, micro, running, settled, aborted, requested, granted, resumed, started)
    }

    constructor (concurrency: nat)
      ensures View() == Initial() && this.concurrency == concurrency && prefetched == map[]
    {
      this.concurrency := concurrency;
      active, waiting, aborted, prefetched, micro, requested := 0, [], false, map[], [], 0;
      running, settled, granted, resumed, started := {}, {}, [], [], [];
    }

    /** A reader starts its prefetch list at once; a limit below one is refused. */
    static method Create(prefetch: seq<string>, concurrency: int) returns (r: Option<Reader>)
      ensures r.None? <==> concurrency < 1
      ensures r.Some? ==> fresh(r.value) && r.value.concurrency == concurrency
      ensures r.Some? ==> exists es :: |es| == |prefetch| && Trace(concurrency, es) && r.value.View() == Run(concurrency, es)
      ensures r.Some? ==> r.value.prefetched.Keys == set key | key in prefetch
      ensures r.Some? ==> forall key :: key in r.value.prefetched ==>
        r.value.prefetched[key] < |prefetch| && prefetch[r.value.prefetched[key]] == key
    {
      if concurrency < 1 {
        return None;
      }
      var reader := new Reader(concurrency);
      ghost var es: seq<Event> := [];
      for i := 0 to |prefetch|
        invariant fresh(reader) && reader.concurrency == concurrency
        invariant |es| == i && Trace(concurrency, es) && reader.View() == Run(concurrency, es) && reader.requested == i
        invariant reader.prefetched.Keys == set key | key in prefetch[..i]
        invariant forall key :: key in reader.prefetched ==>
          reader.prefetched[key] < i && prefetch[reader.prefetched[key]] == key
      {
        var request := reader.Start();
        reader.prefetched := reader.prefetched[prefetch[i] := request];
        assert (es + [Requested])[..|es|] == es;
        es := es + [Requested];
        assert prefetch[..i + 1] == prefetch[..i] + [prefetch[i]];
      }
      assert prefetch[..|prefetch|] == prefetch;
      r := Some(reader);
    }

    method AcquireSlot(r: Request)
      modifies this
      ensures View() == Acquire(old(View()), concurrency, r) && prefetched == old(prefetched)
    {
      if active < concurrency {
        active := active + 1;
        micro := micro + [ResumeStart(r)];
        granted := granted + [r];
      } else {
        waiting := waiting + [r];
      }
    }

    method ReleaseSlot()
      modifies this
      ensures View() == Release(old(View())) && prefetched == old(prefetched)
    {
      if waiting == [] {
        active := active - 1;
      } else {
        var next := waiting[0];
        waiting := waiting[1..];
        micro := micro + [ResumeAcquire(next)];
        granted := granted + [next];
      }
    }

    /** Start one read: it runs up to its first await. */
    method Start() returns (r: Request)
      modifies this
      ensures r == old(requested)
      ensures View() == Next(old(View()), concurrency, Requested) && prefetched == old(prefetched)
    {
      r := requested;
      requested := requested + 1;
      AcquireSlot(r);
    }

    /** Serve a prefetched read once; any other request starts a new read. */
    method ReadHelp(key: string) returns (r: Request)
      modifies this
      ensures old(key in prefetched) ==>
        r == old(prefetched)[key] && prefetched == old(prefetched) - {key} && View() == old(View())
      ensures old(key !in prefetched) ==>
        r == old(requested) && prefetched == old(prefetched) && View() == Next(old(View()), concurrency, Requested)
    {
      if key in prefetched {
        r := prefetched[key];
        prefetched := prefetched - {key};
      } else {
        r := Start();
      }
    }

    /** The event loop runs its oldest microtask. */
    method RunMicrotask()
      requires micro != []
      modifies this
      ensures View() == Next(old(View()), concurrency, Microtask) && prefetched == old(prefetched)
    {
      var task := micro[0];
      micro := micro[1..];
      match task
      case ResumeAcquire(r) =>
        micro := micro + [ResumeStart(r)];
      case ResumeStart(r) =>
        resumed := resumed + [r];
        if aborted {
          settled := settled + {r};
          ReleaseSlot();
        } else {
          running := running + {r};
          started := started + [r];
        }
    }

    /** A running read settles; its finally block releases the slot. */
    method Settle(r: Request)
      requires r in running
      modifies this
      ensures View() == Next(old(View()), concurrency, Settled(r)) && prefetched == old(prefetched)
    {
      running := running - {r};
      settled := settled + {r};
      ReleaseSlot();
    }

    /** The synchronous part of close(): abort the shared signal. */
    method Abort()
      modifies this
      ensures View() == Next(old(View()), concurrency, Aborted) && prefetched == old(prefetched)
    {
      aborted := true;
    }
  }

  // ---------- Runs ----------

  /** Each event is enabled where it happens. */
  ghost predicate Trace(concurrency: nat, es: seq<Event>)
    decreases |es|, 1
  {
    es == [] || (var n := |es| - 1; Trace(concurrency, es[..n]) && Enabled(Run(concurrency, es[..n]), es[n]))
  }

  ghost function Run(concurrency: nat, es: seq<Event>): State
    requires Trace(concurrency, es)
    decreases |es|, 2
  {
    if es == [] then Initial()
    else var n := |es| - 1; Next(Run(concurrency, es[..n]), concurrency, es[n])
  }

  // ---------- What every run keeps ----------

  /** Requests whose continuation is queued, in queue order. */
  function Queued(micro: seq<Task>): (r: seq<Request>)
    ensures |r| == |micro| && forall i :: 0 <= i < |r| ==> r[i] == micro[i].request
  {
    seq(|micro|, i requires 0 <= i < |micro| => micro[i].request)
  }

  function UpTo(n: nat): (r: seq<Request>)
    ensures |r| == n && forall i :: 0 <= i < n ==> r[i] == i
  {
    seq(n, i => i)
  }

  ghost predicate Distinct(s: seq<Request>) {
    forall i, k :: 0 <= i < k < |s| ==> s[i] != s[k]
  }

  /** Slots: as many as there are queued continuations and running reads, never more than the limit. */
  ghost predicate SlotsHeld(s: State, concurrency: nat) {
    && s.active == |s.micro| + |s.running|
    && s.active <= concurrency
    && (s.waiting != [] ==> s.active == concurrency)
  }

  /** Every request is waiting, queued, running or settled, and is only one of these. */
  ghost predicate Accounted(s: State) {
    && Distinct(Queued(s.micro))
    && s.running !! s.settled
    && (forall i :: 0 <= i < |s.micro| ==> s.micro[i].request !in s.running + s.settled)
    && (forall r :: r in s.granted <==> r in Queued(s.micro) || r in s.running || r in s.settled)
    && (forall r :: r in s.resumed <==> r in s.running || r in s.settled)
  }

  /** First in, first out: the slots granted so far, then the waiting list, are the requests in order. */
  ghost predicate GrantsInOrder(s: State) {
    s.granted + s.waiting == UpTo(s.requested)
  }

  ghost predicate StartsBeforeAbort(s: State) {
    s.started <= s.resumed && (!s.aborted ==> s.started == s.resumed)
  }

  ghost predicate Invariant(s: State, concurrency: nat) {
    SlotsHeld(s, concurrency) && Accounted(s) && GrantsInOrder(s) && StartsBeforeAbort(s)
  }

  /** The waiting requests are the last ones made, so none of them has been granted. */
  lemma WaitingNotGranted(s: State)
    requires GrantsInOrder(s)
    ensures forall i :: 0 <= i < |s.waiting| ==> s.waiting[i] == |s.granted| + i
    ensures forall r :: r in s.granted ==> r < |s.granted|
    ensures |s.granted| + |s.waiting| == s.requested
  {
    var all := s.granted + s.waiting;
    assert forall i :: 0 <= i < |s.granted| ==> s.granted[i] == all[i];
    assert forall i :: 0 <= i < |s.waiting| ==> s.waiting[i] == all[|s.granted| + i];
  }

  lemma ReleaseKeeps(s: State, concurrency: nat)
    requires s.active == |s.micro| + |s.running| + 1 && s.active <= concurrency
    requires s.waiting != [] ==> s.active == concurrency
    requires Accounted(s) && GrantsInOrder(s) && StartsBeforeAbort(s)
    ensures Invariant(Release(s), concurrency)
  {
    if s.waiting != [] {
      WaitingNotGranted(s);
      var next := s.waiting[0];
      var s' := Release(s);
      assert next !in s.granted;
      assert s'.granted + s'.waiting == s.granted + s.waiting;
      assert Queued(s'.micro) == Queued(s.micro) + [next];
      forall i | 0 <= i < |s'.micro| ensures s'.micro[i].request !in s'.running + s'.settled {
        if i < |s.micro| {
          assert s'.micro[i] == s.micro[i];
        }
      }
    }
  }

  lemma RequestKeeps(s: State, concurrency: nat)
    requires Invariant(s, concurrency)
    ensures Invariant(Next(s, concurrency, Requested), concurrency)
  {
    WaitingNotGranted(s);
    var r, s' := s.requested, Next(s, concurrency, Requested);
    assert UpTo(s.requested + 1) == UpTo(s.requested) + [r];
    if s.active < concurrency {
      assert s.waiting == [];
      assert r !in s.granted;
      assert Queued(s'.micro) == Queued(s.micro) + [r];
      forall i | 0 <= i < |s'.micro| ensures s'.micro[i].request !in s'.running + s'.settled {
        if i < |s.micro| {
          assert s'.micro[i] == s.micro[i];
        }
      }
      assert s'.granted + s'.waiting == (s.granted + s.waiting) + [r];
    } else {
      assert s'.granted + s'.waiting == (s.granted + s.waiting) + [r];
    }
  }

  /** Taking the oldest continuation off the queue. */
  lemma QueueHead(s: State)
    requires Accounted(s) && s.micro != []
    ensures Queued(s.micro) == [s.micro[0].request] + Queued(s.micro[1..])
    ensures Distinct(Queued(s.micro[1..])) && s.micro[0].request !in Queued(s.micro[1..])
    ensures forall i :: 0 <= i < |s.micro| - 1 ==> s.micro[1..][i].request !in s.running + s.settled
  {
    var q := Queued(s.micro);
    assert q == [q[0]] + Queued(s.micro[1..]);
    assert forall i :: 0 <= i < |s.micro| - 1 ==> s.micro[1..][i] == s.micro[i + 1];
  }

  lemma HandoffKeeps(s: State, concurrency: nat)
    requires Invariant(s, concurrency) && s.micro != [] && s.micro[0].ResumeAcquire?
    ensures Invariant(Next(s, concurrency, Microtask), concurrency)
  {
    QueueHead(s);
    var r, rest, s' := s.micro[0].request, s.micro[1..], Next(s, concurrency, Microtask);
    assert Queued(s'.micro) == Queued(rest) + [r];
    forall i | 0 <= i < |s'.micro| ensures s'.micro[i].request !in s'.running + s'.settled {
      if i < |rest| {
        assert s'.micro[i] == rest[i];
      } else {
        assert s.micro[0].request !in s.running + s.settled;
      }
    }
  }

  lemma ResumeKeeps(s: State, concurrency: nat)
    requires Invariant(s, concurrency) && s.micro != [] && s.micro[0].ResumeStart?
    ensures Invariant(Next(s, concurrency, Microtask), concurrency)
  {
    QueueHead(s);
    var r := s.micro[0].request;
    assert r !in s.running + s.settled;
    var rest := s.(micro := s.micro[1..], resumed := s.resumed + [r]);
    if s.aborted {
      var done := rest.(settled := rest.settled + {r});
      assert Accounted(done);
      ReleaseKeeps(done, concurrency);
    } else {
      var started := rest.(running := rest.running + {r}, started := rest.started + [r]);
      assert Accounted(started);
    }
  }

  lemma SettledKeeps(s: State, concurrency: nat, r: Request)
    requires Invariant(s, concurrency) && r in s.running
    ensures Invariant(Next(s, concurrency, Settled(r)), concurrency)
  {
    var s' := s.(running := s.running - {r}, settled := s.settled + {r});
    assert |s'.running| == |s.running| - 1;
    ReleaseKeeps(s', concurrency);
  }

  lemma StepKeeps(s: State, concurrency: nat, e: Event)
    requires Invariant(s, concurrency) && Enabled(s, e)
    ensures Invariant(Next(s, concurrency, e), concurrency)
  {
    match e
    case Requested => RequestKeeps(s, concurrency);
    case Microtask =>
      if s.micro[0].ResumeAcquire? {
        HandoffKeeps(s, concurrency);
      } else {
        ResumeKeeps(s, concurrency);
      }
    case Settled(r) => SettledKeeps(s, concurrency, r);
    case Aborted =>
  }

  /** In every interleaving: slots are counted exactly, grants are first in first out, and no request is lost. */
  lemma {:induction false} EveryRunKeeps(concurrency: nat, es: seq<Event>)
    requires Trace(concurrency, es)
    ensures Invariant(Run(concurrency, es), concurrency)
  {
    if es == [] {
      assert UpTo(0) == [];
    } else {
      var n := |es| - 1;
      EveryRunKeeps(concurrency, es[..n]);
      StepKeeps(Run(concurrency, es[..n]), concurrency, es[n]);
    }
  }

  // ---------- Abort and settlement ----------

  lemma {:induction false} TracePrefix(concurrency: nat, es: seq<Event>, n: nat)
    requires Trace(concurrency, es) && n <= |es|
    ensures Trace(concurrency, es[..n])
    decreases |es|
  {
    if n < |es| {
      TracePrefix(concurrency, es[..|es| - 1], n);
      assert es[..|es| - 1][..n] == es[..n];
    } else {
      assert es[..n] == es;
    }
  }

  /**
   What a run has done, in terms of its events: the signal is aborted since an abort, and before one every continued
   request has started; a started read runs until its settlement, and a continued one that did not start has settled.
   */
  ghost predicate Reflects(s: State, es: seq<Event>) {
    && (s.aborted <==> Aborted in es)
    && (Aborted !in es ==> s.started == s.resumed)
    && (forall r :: r in s.running <==> r in s.started && Settled(r) !in es)
    && (forall r :: r in s.settled <==> Settled(r) in es || (r in s.resumed && r !in s.started))
    && (forall r :: Settled(r) in es ==> r in s.started)
  }

  lemma StepReflects(s: State, concurrency: nat, es: seq<Event>, e: Event)
    requires Invariant(s, concurrency) && Reflects(s, es) && Enabled(s, e)
    ensures Reflects(Next(s, concurrency, e), es + [e])
  {
    if e.Microtask? && s.micro[0].ResumeStart? {
      var r := s.micro[0].request;
      assert r !in s.running + s.settled && r !in s.resumed;
      assert s.started <= s.resumed;
      assert r !in s.started && Settled(r) !in es;
    }
  }

  lemma {:induction false} EveryRunReflects(concurrency: nat, es: seq<Event>)
    requires Trace(concurrency, es)
    ensures Reflects(Run(concurrency, es), es)
  {
    if es != [] {
      var n := |es| - 1;
      EveryRunReflects(concurrency, es[..n]);
      EveryRunKeeps(concurrency, es[..n]);
      StepReflects(Run(concurrency, es[..n]), concurrency, es[..n], es[n]);
      assert es == es[..n] + [es[n]];
    }
  }

  /** The requests that continued between two moments of a run. */
  ghost function ContinuedSince(earlier: State, later: State): seq<Request>
    requires earlier.resumed <= later.resumed
  {
    later.resumed[|earlier.resumed|..]
  }

  lemma StepResumes(s: State, concurrency: nat, e: Event)
    requires Enabled(s, e)
    ensures s.resumed <= Next(s, concurrency, e).resumed
  {
  }

  lemma {:induction false} ResumedGrows(concurrency: nat, es: seq<Event>, n: nat)
    requires Trace(concurrency, es) && n <= |es|
    ensures Trace(concurrency, es[..n]) && Run(concurrency, es[..n]).resumed <= Run(concurrency, es).resumed
    decreases |es|
  {
    TracePrefix(concurrency, es, n);
    if n < |es| {
      var last := |es| - 1;
      ResumedGrows(concurrency, es[..last], n);
      assert es[..last][..n] == es[..n];
      StepResumes(Run(concurrency, es[..last]), concurrency, es[last]);
    } else {
      assert es[..n] == es;
    }
  }

  lemma StepAfterAbort(s: State, concurrency: nat, e: Event)
    requires s.aborted && Enabled(s, e)
    ensures var s' := Next(s, concurrency, e); s'.aborted && s'.started == s.started
  {
  }

  lemma {:induction false} StartedStays(concurrency: nat, es: seq<Event>, n: nat)
    requires Trace(concurrency, es) && n <= |es| && Trace(concurrency, es[..n]) && Run(concurrency, es[..n]).aborted
    ensures Run(concurrency, es).aborted && Run(concurrency, es).started == Run(concurrency, es[..n]).started
    decreases |es|
  {
    if n < |es| {
      var last := |es| - 1;
      assert es[..last][..n] == es[..n];
      StartedStays(concurrency, es[..last], n);
      StepAfterAbort(Run(concurrency, es[..last]), concurrency, es[last]);
    } else {
      assert es[..n] == es;
    }
  }

  /**
   After an abort no read starts any more, in whatever order the rest happens, and every request that continues
   afterwards settles at once without having started.
   */
  lemma NoStartAfterAbort(concurrency: nat, es: seq<Event>, n: nat)
    requires Trace(concurrency, es) && n <= |es| && Aborted in es[..n]
    ensures Trace(concurrency, es[..n]) && Run(concurrency, es[..n]).resumed <= Run(concurrency, es).resumed
    ensures Run(concurrency, es).started == Run(concurrency, es[..n]).started
    ensures forall r :: r in ContinuedSince(Run(concurrency, es[..n]), Run(concurrency, es)) ==>
      r in Run(concurrency, es).settled && r !in Run(concurrency, es).started
  {
    ResumedGrows(concurrency, es, n);
    EveryRunReflects(concurrency, es[..n]);
    EveryRunReflects(concurrency, es);
    StartedStays(concurrency, es, n);
    EveryRunKeeps(concurrency, es[..n]);
    EveryRunKeeps(concurrency, es);
    ContinuedOnce(concurrency, es);
    var early, late := Run(concurrency, es[..n]), Run(concurrency, es);
    forall r | r in ContinuedSince(early, late) ensures r in late.settled && r !in late.started {
      NotAgain(early.resumed, late.resumed, r);
      assert forall q :: q in early.started ==> q in early.resumed;
    }
  }

  lemma NotAgain(early: seq<Request>, late: seq<Request>, r: Request)
    requires Distinct(late) && early <= late && r in late[|early|..]
    ensures r in late && r !in early
  {
    var i :| |early| <= i < |late| && late[i] == r;
  }

  /** No request continues twice. */
  lemma {:induction false} ContinuedOnce(concurrency: nat, es: seq<Event>)
    requires Trace(concurrency, es)
    ensures Distinct(Run(concurrency, es).resumed)
  {
    if es != [] {
      var n := |es| - 1;
      ContinuedOnce(concurrency, es[..n]);
      EveryRunKeeps(concurrency, es[..n]);
      var s := Run(concurrency, es[..n]);
      if es[n].Microtask? && s.micro[0].ResumeStart? {
        assert s.micro[0].request !in s.running + s.settled;
        assert s.micro[0].request !in s.resumed;
      }
    }
  }

  /** Whoever holds a slot or waits for one has not settled. */
  lemma HolderNotSettled(s: State, concurrency: nat) returns (r: Request)
    requires Invariant(s, concurrency) && (s.active != 0 || s.waiting != [])
    ensures r < s.requested && r !in s.settled
  {
    WaitingNotGranted(s);
    if s.waiting != [] {
      r := s.waiting[0];
    } else if s.micro != [] {
      r := s.micro[0].request;
      assert Queued(s.micro)[0] == r;
    } else {
      r :| r in s.running;
    }
  }

  /** Everything has settled exactly when no slot is held and nobody waits. */
  lemma IdleIffSettled(s: State, concurrency: nat)
    requires Invariant(s, concurrency)
    ensures (forall r: Request :: r < s.requested ==> r in s.settled) <==> s.active == 0 && s.waiting == []
  {
    if s.active == 0 && s.waiting == [] {
      forall r: Request | r < s.requested ensures r in s.settled {
        assert s.granted == s.granted + s.waiting;
        assert s.granted[r] == r;
      }
    } else {
      var r := HolderNotSettled(s, concurrency);
    }
  }

  /** How many continuations and settlements the requests made so far can still need. */
  function Remaining(s: State): nat {
    4 * |s.waiting| + QueueWork(s.micro) + |s.running|
  }

  function QueueWork(micro: seq<Task>): nat {
    if micro == [] then 0
    else QueueWork(micro[..|micro| - 1]) + if micro[|micro| - 1].ResumeAcquire? then 3 else 2
  }

  lemma {:induction false} QueueWorkHead(micro: seq<Task>)
    requires micro != []
    ensures QueueWork(micro) == QueueWork(micro[1..]) + if micro[0].ResumeAcquire? then 3 else 2
  {
    if |micro| > 1 {
      QueueWorkHead(micro[..|micro| - 1]);
      assert micro[1..][..|micro| - 2] == micro[..|micro| - 1][1..];
    }
  }

  lemma QueueWorkSnoc(micro: seq<Task>, task: Task)
    ensures QueueWork(micro + [task]) == QueueWork(micro) + if task.ResumeAcquire? then 3 else 2
  {
    assert (micro + [task])[..|micro|] == micro;
  }

  lemma ReleaseWork(s: State)
    ensures Remaining(Release(s)) <= Remaining(s)
  {
    if s.waiting != [] {
      QueueWorkSnoc(s.micro, ResumeAcquire(s.waiting[0]));
    }
  }

  /**
   Every continuation and settlement uses up remaining work, and while work remains one of them is possible: with
   no further requests, all reads settle after at most Remaining(s) such steps.
   */
  lemma WorkRunsOut(s: State, concurrency: nat, e: Event)
    requires Invariant(s, concurrency) && concurrency > 0
    ensures Enabled(s, e) && (e.Microtask? || e.Settled?) ==> Remaining(Next(s, concurrency, e)) < Remaining(s)
    ensures Remaining(s) > 0 ==> Enabled(s, Microtask) || exists r :: Enabled(s, Settled(r))
    ensures Remaining(s) == 0 ==> s.active == 0 && s.waiting == []
  {
    if Remaining(s) > 0 && s.micro == [] {
      assert QueueWork(s.micro) == 0;
      assert s.running != {};
      var r :| r in s.running;
      assert Enabled(s, Settled(r));
    }
    if s.micro != [] {
      QueueWorkHead(s.micro);
    }
    if e.Microtask? && Enabled(s, e) {
      var r, rest := s.micro[0].request, s.(micro := s.micro[1..]);
      if s.micro[0].ResumeAcquire? {
        QueueWorkSnoc(rest.micro, ResumeStart(r));
      } else {
        ReleaseWork(rest.(resumed := rest.resumed + [r], settled := rest.settled + {r}));
        assert |s.running + {r}| <= |s.running| + 1;
      }
    } else if e.Settled? && Enabled(s, e) {
      var r := e.request;
      assert |s.running - {r}| == |s.running| - 1;
      ReleaseWork(s.(running := s.running - {r}, settled := s.settled + {r}));
    }
  }

  // ---------- Order of starts ----------

  /** Requests of the queued tasks of one kind, in queue order. */
  function OfKind(micro: seq<Task>, acquire: bool): seq<Request> {
    if micro == [] then []
    else
      var front, last := micro[..|micro| - 1], micro[|micro| - 1];
      OfKind(front, acquire) + One(last, acquire)
  }

  function One(task: Task, acquire: bool): seq<Request> {
    if task.ResumeAcquire? == acquire then [task.request] else []
  }

  /**
   The order in which granted requests continue past acquire(): those that did, then the queued immediate grants,
   then the queued handoffs, which go round the queue once more.
   */
  function Order(s: State): seq<Request> {
    s.resumed + OfKind(s.micro, false) + OfKind(s.micro, true)
  }

  ghost predicate Increasing(s: seq<Request>) {
    forall i, k :: 0 <= i < k < |s| ==> s[i] < s[k]
  }

  /** A request is granted at once while a handed-off request still waits for its second microtask. */
  predicate Overtakes(s: State, concurrency: nat, e: Event) {
    e.Requested? && s.active < concurrency && OfKind(s.micro, true) != []
  }

  lemma OfKindSnoc(micro: seq<Task>, task: Task, acquire: bool)
    ensures OfKind(micro + [task], acquire) == OfKind(micro, acquire) + One(task, acquire)
  {
    assert (micro + [task])[..|micro|] == micro;
  }

  lemma Regroup(a: seq<Request>, b: seq<Request>, c: seq<Request>)
    ensures (a + b) + c == a + (b + c)
  {
  }

  lemma {:induction false} OfKindHead(micro: seq<Task>, acquire: bool)
    requires micro != []
    ensures OfKind(micro, acquire) == One(micro[0], acquire) + OfKind(micro[1..], acquire)
  {
    var front, last := micro[..|micro| - 1], micro[|micro| - 1];
    if |micro| > 1 {
      OfKindHead(front, acquire);
      OfKindSnoc(front[1..], last, acquire);
      assert micro[1..] == front[1..] + [last];
      Regroup(One(micro[0], acquire), OfKind(front[1..], acquire), One(last, acquire));
    } else {
      assert front == [] && micro[1..] == [];
      assert OfKind(micro, acquire) == [] + One(last, acquire);
    }
  }

  lemma {:induction false} OfKindMembers(micro: seq<Task>, acquire: bool, r: Request)
    requires r in OfKind(micro, acquire)
    ensures r in Queued(micro)
  {
    var n := |micro| - 1;
    assert Queued(micro) == Queued(micro[..n]) + [micro[n].request];
    if r in OfKind(micro[..n], acquire) {
      OfKindMembers(micro[..n], acquire, r);
    }
  }

  lemma OrderIsGranted(s: State, concurrency: nat)
    requires Invariant(s, concurrency)
    ensures forall r :: r in Order(s) ==> r < |s.granted|
  {
    WaitingNotGranted(s);
    forall r | r in Order(s) ensures r < |s.granted| {
      if r in OfKind(s.micro, false) {
        OfKindMembers(s.micro, false, r);
      } else if r in OfKind(s.micro, true) {
        OfKindMembers(s.micro, true, r);
      }
      assert r in s.granted;
    }
  }

  /** A larger request keeps a list increasing exactly when nothing follows it. */
  lemma IncreasingInsert(before: seq<Request>, x: Request, behind: seq<Request>)
    requires forall r :: r in before + behind ==> r < x
    ensures Increasing(before + [x] + behind) <==> Increasing(before + behind) && behind == []
  {
    var s, t := before + behind, before + [x] + behind;
    assert forall i :: 0 <= i < |before| ==> t[i] == s[i];
    if behind == [] {
      if Increasing(t) {
        forall i, k | 0 <= i < k < |s| ensures s[i] < s[k] {
          assert t[i] < t[k];
        }
      }
      if Increasing(s) {
        forall i, k | 0 <= i < k < |t| ensures t[i] < t[k] {
          assert s[i] in s;
        }
      }
    } else {
      assert t[|before|] == x && t[|before| + 1] == behind[0] && behind[0] in s;
    }
  }

  lemma ReleaseOrder(s: State)
    requires GrantsInOrder(s) && forall r :: r in Order(s) ==> r < |s.granted|
    ensures Increasing(Order(Release(s))) <==> Increasing(Order(s))
  {
    if s.waiting != [] {
      WaitingNotGranted(s);
      var next := s.waiting[0];
      OfKindSnoc(s.micro, ResumeAcquire(next), false);
      OfKindSnoc(s.micro, ResumeAcquire(next), true);
      Regroup(s.resumed + OfKind(s.micro, false), OfKind(s.micro, true), [next]);
      assert OfKind(s.micro, false) + [] == OfKind(s.micro, false);
      assert Order(Release(s)) == Order(s) + [next];
      IncreasingInsert(Order(s), next, []);
      assert Order(s) + [next] + [] == Order(s) + [next] && Order(s) + [] == Order(s);
    }
  }

  /** A request granted at once continues before everything handed off earlier. */
  lemma GrantedAtOnceOrder(s: State, r: Request)
    ensures Order(s.(micro := s.micro + [ResumeStart(r)]))
         == (s.resumed + OfKind(s.micro, false)) + [r] + OfKind(s.micro, true)
  {
    OfKindSnoc(s.micro, ResumeStart(r), false);
    OfKindSnoc(s.micro, ResumeStart(r), true);
    assert OfKind(s.micro, true) + [] == OfKind(s.micro, true);
    Regroup(s.resumed, OfKind(s.micro, false), [r]);
  }

  lemma RequestOrder(s: State, concurrency: nat)
    requires Invariant(s, concurrency)
    ensures Increasing(Order(Next(s, concurrency, Requested)))
            <==> Increasing(Order(s)) && !Overtakes(s, concurrency, Requested)
  {
    if s.active < concurrency {
      OrderIsGranted(s, concurrency);
      WaitingNotGranted(s);
      GrantedAtOnceOrder(s, s.requested);
      var before, behind := s.resumed + OfKind(s.micro, false), OfKind(s.micro, true);
      assert Order(Next(s, concurrency, Requested)) == before + [s.requested] + behind;
      assert s.waiting == [] && |s.granted| == s.requested;
      assert before + behind == Order(s);
      IncreasingInsert(before, s.requested, behind);
    }
  }

  lemma HandoffOrder(s: State, concurrency: nat)
    requires s.micro != [] && s.micro[0].ResumeAcquire?
    ensures Order(Next(s, concurrency, Microtask)) == Order(s)
  {
    var r, rest := s.micro[0].request, s.micro[1..];
    OfKindHead(s.micro, false);
    OfKindHead(s.micro, true);
    OfKindSnoc(rest, ResumeStart(r), false);
    OfKindSnoc(rest, ResumeStart(r), true);
    var now, later := OfKind(rest, false), OfKind(rest, true);
    assert [] + now == now && later + [] == later;
    Regroup(s.resumed, now, [r]);
    Regroup(s.resumed + now, [r], later);
  }

  lemma ResumeOrder(s: State, concurrency: nat)
    requires Invariant(s, concurrency) && s.micro != [] && s.micro[0].ResumeStart?
    ensures Increasing(Order(Next(s, concurrency, Microtask))) <==> Increasing(Order(s))
  {
    OfKindHead(s.micro, false);
    OfKindHead(s.micro, true);
    var r := s.micro[0].request;
    var rest := s.(micro := s.micro[1..], resumed := s.resumed + [r]);
    Regroup(s.resumed, [r], OfKind(rest.micro, false));
    assert [] + OfKind(rest.micro, true) == OfKind(rest.micro, true);
    assert Order(rest) == Order(s);
    if s.aborted {
      OrderIsGranted(s, concurrency);
      var done := rest.(settled := rest.settled + {r});
      assert Order(done) == Order(s);
      ReleaseOrder(done);
    }
  }

  lemma StepOrder(s: State, concurrency: nat, e: Event)
    requires Invariant(s, concurrency) && Enabled(s, e)
    ensures Increasing(Order(Next(s, concurrency, e))) <==> Increasing(Order(s)) && !Overtakes(s, concurrency, e)
  {
    match e
    case Requested => RequestOrder(s, concurrency);
    case Microtask =>
      if s.micro[0].ResumeAcquire? {
        HandoffOrder(s, concurrency);
      } else {
        ResumeOrder(s, concurrency);
      }
    case Settled(r) =>
      OrderIsGranted(s, concurrency);
      var done := s.(running := s.running - {r}, settled := s.settled + {r});
      assert Order(done) == Order(s);
      ReleaseOrder(done);
    case Aborted =>
  }

  /** No event of the run overtakes. */
  ghost predicate NeverOvertakes(concurrency: nat, es: seq<Event>)
    requires Trace(concurrency, es)
  {
    es == [] ||
    (var n := |es| - 1;
     NeverOvertakes(concurrency, es[..n]) && !Overtakes(Run(concurrency, es[..n]), concurrency, es[n]))
  }

  /**
   Reads continue in request order exactly when no request was ever granted at once while a handed-off one was still
   on its way; slots themselves are always granted in request order.
   */
  lemma {:induction false} StartsInOrderIff(concurrency: nat, es: seq<Event>)
    requires Trace(concurrency, es)
    ensures Increasing(Order(Run(concurrency, es))) <==> NeverOvertakes(concurrency, es)
  {
    if es == [] {
      assert Order(Initial()) == [];
    } else {
      var n := |es| - 1;
      StartsInOrderIff(concurrency, es[..n]);
      EveryRunKeeps(concurrency, es[..n]);
      StepOrder(Run(concurrency, es[..n]), concurrency, es[n]);
    }
  }

  /** One more event of a run, with the state it leads to written out. */
  lemma Extend(concurrency: nat, es: seq<Event>, s: State, e: Event, s': State)
    requires Trace(concurrency, es) && Run(concurrency, es) == s && Enabled(s, e) && Next(s, concurrency, e) == s'
    ensures Trace(concurrency, es + [e]) && Run(concurrency, es + [e]) == s'
  {
    assert (es + [e])[..|es|] == es;
  }

  /** Two slots, three requests: the first two reads run and the third request waits. */
  lemma TwoRunOneWaits() returns (es: seq<Event>)
    ensures Trace(2, es) && Run(2, es) == State(2, [2], [], {0, 1}, {}, false, 3, [0, 1], [0, 1], [0, 1])
  {
    var s1 := State(1, [], [ResumeStart(0)], {}, {}, false, 1, [0], [], []);
    var s2 := State(2, [], [ResumeStart(0), ResumeStart(1)], {}, {}, false, 2, [0, 1], [], []);
    var s3 := State(2, [], [ResumeStart(1)], {0}, {}, false, 2, [0, 1], [0], [0]);
    var s4 := State(2, [], [], {0, 1}, {}, false, 2, [0, 1], [0, 1], [0, 1]);
    Extend(2, [], Initial(), Requested, s1);
    Extend(2, [] + [Requested], s1, Requested, s2);
    es := [] + [Requested] + [Requested];
    Extend(2, es, s2, Microtask, s3);
    es := es + [Microtask];
    Extend(2, es, s3, Microtask, s4);
    es := es + [Microtask];
    Extend(2, es, s4, Requested, s4.(waiting := [2], requested := 3));
    es := es + [Requested];
  }

  /** Read 0 hands its slot to request 2, read 1 frees its own, and request 3 takes that one at once. */
  lemma HandoffThenRequest() returns (es: seq<Event>)
    ensures Trace(2, es)
    ensures Run(2, es) == State(2, [], [ResumeAcquire(2), ResumeStart(3)], {}, {0, 1}, false, 4, [0, 1, 2, 3], [0, 1], [0, 1])
  {
    es := TwoRunOneWaits();
    var s5 := State(2, [2], [], {0, 1}, {}, false, 3, [0, 1], [0, 1], [0, 1]);
    var s6 := State(2, [], [ResumeAcquire(2)], {1}, {0}, false, 3, [0, 1, 2], [0, 1], [0, 1]);
    var s7 := s6.(active := 1, running := {}, settled := {0, 1});
    var s8 := s7.(active := 2, micro := [ResumeAcquire(2), ResumeStart(3)], requested := 4, granted := [0, 1, 2, 3]);
    assert {0, 1} - {0} == {1} && {1} - {1} == {} && {0} + {1} == {0, 1};
    assert [2][1..] == [];
    Extend(2, es, s5, Settled(0), s6);
    es := es + [Settled(0)];
    Extend(2, es, s6, Settled(1), s7);
    es := es + [Settled(1)];
    Extend(2, es, s7, Requested, s8);
    es := es + [Requested];
  }

  /** So with two slots there is a run whose reads start as 0, 1, 3, 2 although slots went to 0, 1, 2, 3. */
  lemma OvertakingRun() returns (es: seq<Event>)
    ensures Trace(2, es)
    ensures Run(2, es).granted == [0, 1, 2, 3] && Run(2, es).started == [0, 1, 3, 2]
  {
    es := HandoffThenRequest();
    var s8 := State(2, [], [ResumeAcquire(2), ResumeStart(3)], {}, {0, 1}, false, 4, [0, 1, 2, 3], [0, 1], [0, 1]);
    var s9 := s8.(micro := [ResumeStart(3), ResumeStart(2)]);
    var s10 := s9.(micro := [ResumeStart(2)], running := {3}, resumed := [0, 1, 3], started := [0, 1, 3]);
    var s11 := s10.(micro := [], running := {3} + {2}, resumed := [0, 1, 3, 2], started := [0, 1, 3, 2]);
    Extend(2, es, s8, Microtask, s9);
    es := es + [Microtask];
    Extend(2, es, s9, Microtask, s10);
    es := es + [Microtask];
    Extend(2, es, s10, Microtask, s11);
    es := es + [Microtask];
  }
}
