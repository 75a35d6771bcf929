/**
 The exit diagnostics of a coverage fork: which process exits are reported, and for which files, over everything a
 worker can be sent, answer, suffer or be told after it started.
 */
module ForkObserver {
  import opened Outcomes

  type File = string

  datatype Message = Run(files: seq<File>) | Collect(files: seq<File>) | StopMessage | OtherMessage

  datatype Event =
    | Send(message: Message)
    | ErrorObserved
    | Finished
    | StopCalled
    | Exit

  /** One reported exit, naming the files of the outstanding request. */
  datatype Report = Report(files: seq<File>)

  datatype State = State(
    expectedExit: bool,
    workerErrored: bool,
    observing: bool,
    request: Option<seq<File>>,
    reports: seq<Report>)

  function Started(): State {
    State(false, false, true, None, [])
  }

  function Next(s: State, e: Event): State {
    match e
    case Send(m) =>
      var s := if m.Run? || m.Collect? then s.(request := Some(m.files)) else s;
      if m.StopMessage? && !s.workerErrored then s.(expectedExit := true) else s
    case ErrorObserved => if s.expectedExit then s else s.(workerErrored := true)
    case Finished => s.(request := None)
    case StopCalled => if s.workerErrored then s else s.(expectedExit := true, observing := false)
    case Exit =>
      if s.observing && !s.expectedExit then
        s.(reports := s.reports + [Report(if s.request.Some? then s.request.value else [])])
      else s
  }

  class DiagnosticForkWorker {
    var expectedExit: bool
    var observing: bool
    var workerErrored: bool
    var request: Option<seq<File>>
    ghost var reports: seq<Report>

    ghost function View(): State
      reads this
    {
      State(expectedExit, workerErrored, observing, request, reports)
    }

    /** Construction followed by `start`, which attaches the observers. */
    constructor ()
      ensures View() == Started()
    {
      expectedExit, observing, workerErrored, request, reports := false, true, false, None, [];
    }

    method SendMessage(m: Message)
      modifies this
      ensures View() == Next(old(View()), Send(m))
    {
      if m.Run? || m.Collect? {
        request := Some(m.files);
      }
      if m.StopMessage? && !workerErrored {
        expectedExit := true;
      }
    }

    method ObserveError()
      modifies this
      ensures View() == Next(old(View()), ErrorObserved)
    {
      if !expectedExit {
        workerErrored := true;
      }
    }

    method DeserializeFinished()
      modifies this
      ensures View() == Next(old(View()), Finished)
    {
      request := None;
    }

    method Stop()
      modifies this
      ensures View() == Next(old(View()), StopCalled)
    {
      if !workerErrored {
        expectedExit := true;
        if observing {
          observing := false;
        }
      }
    }

    method OnExit()
      modifies this
      ensures View() == Next(old(View()), Exit)
    {
      if !observing || expectedExit {
        return;
      }
      reports := reports + [Report(if request.Some? then request.value else [])];
    }
  }

  function Run(es: seq<Event>): State {
    if es == [] then Started() else Next(Run(es[..|es| - 1]), es[|es| - 1])
  }

  // ---------- What the worker's history says, without any state ----------

  datatype First = Neither | StopFirst | ErrorFirst

  predicate IsStop(e: Event) {
    e.StopCalled? || (e.Send? && e.message.StopMessage?)
  }

  /** Whether a stop or an observed error came first. */
  function FirstOf(es: seq<Event>): First {
    if es == [] then Neither
    else if IsStop(es[0]) then StopFirst
    else if es[0].ErrorObserved? then ErrorFirst
    else FirstOf(es[1..])
  }

  /** Files of the last run or collect request that no completion followed. */
  function Outstanding(es: seq<Event>): seq<File> {
    if es == [] then []
    else
      var last := es[|es| - 1];
      if last.Finished? then []
      else if last.Send? && (last.message.Run? || last.message.Collect?) then last.message.files
      else Outstanding(es[..|es| - 1])
  }

  /** The exits that must be reported: those not preceded by a stop that no error preceded. */
  function ExpectedReports(es: seq<Event>): seq<Report> {
    if es == [] then []
    else
      var front := es[..|es| - 1];
      ExpectedReports(front) +
      if es[|es| - 1].Exit? && FirstOf(front) != StopFirst then [Report(Outstanding(front))] else []
  }

  lemma {:induction false} FirstOfSnoc(es: seq<Event>, e: Event)
    ensures FirstOf(es + [e]) ==
      if FirstOf(es) != Neither then FirstOf(es)
      else if IsStop(e) then StopFirst
      else if e.ErrorObserved? then ErrorFirst
      else Neither
  {
    if es == [] {
      assert ([] + [e])[1..] == [];
    } else {
      FirstOfSnoc(es[1..], e);
      assert (es + [e])[1..] == es[1..] + [e];
    }
  }

  /** A stop and an error never both latch: the first of them does, and an unobserved exit is an expected one. */
  lemma {:induction false} FirstOfThemLatches(es: seq<Event>)
    ensures Run(es).expectedExit <==> FirstOf(es) == StopFirst
    ensures Run(es).workerErrored <==> FirstOf(es) == ErrorFirst
    ensures !Run(es).observing ==> Run(es).expectedExit
  {
    if es != [] {
      var front, last := es[..|es| - 1], es[|es| - 1];
      FirstOfThemLatches(front);
      FirstOfSnoc(front, last);
      assert es == front + [last];
    }
  }

  lemma {:induction false} OutstandingIsTracked(es: seq<Event>)
    ensures (if Run(es).request.Some? then Run(es).request.value else []) == Outstanding(es)
  {
    if es != [] {
      OutstandingIsTracked(es[..|es| - 1]);
    }
  }

  /** Over every history, the reported exits are exactly the unexpected ones, naming the files still outstanding. */
  lemma {:induction false} ReportsExactlyUnexpectedExits(es: seq<Event>)
    ensures Run(es).reports == ExpectedReports(es)
  {
    if es != [] {
      var front := es[..|es| - 1];
      ReportsExactlyUnexpectedExits(front);
      FirstOfThemLatches(front);
      OutstandingIsTracked(front);
    }
  }

  /** Once a stop or an error has come first, nothing that happens later changes which one it was. */
  lemma {:induction false} FirstLatches(es: seq<Event>, later: seq<Event>)
    requires FirstOf(es) != Neither
    ensures FirstOf(es + later) == FirstOf(es)
  {
    if later == [] {
      assert es + later == es;
    } else {
      var front, last := later[..|later| - 1], later[|later| - 1];
      FirstLatches(es, front);
      FirstOfSnoc(es + front, last);
      assert es + later == (es + front) + [last];
    }
  }
}
