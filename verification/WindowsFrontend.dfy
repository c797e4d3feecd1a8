/** The Windows frontend's handling of its runtime and its index worker. */
module WindowsFrontend {

  import opened Results
  import opened WorkerOwnership
  import WorkerArguments

  // ----- What each handler does -----

  /** Reloading after a worker: read-only unless the exit code was 0. */
  function Reload(s: System, code: int, load: Load, daily: bool): System {
    var closed := s.Do(Close);
    if !load.works then closed
    else closed.Do(Open(code != 0)).DoIf(daily, Noted(if code == 0 && load.clean then Success else Failure))
  }

  function PollAndReload(s: System, o: Outcomes, daily: bool): System {
    var ticket, answer := s.Now().ticket, s.Poll(o.wait);
    if ticket == 0 || answer.None? then s
    else Reload(s.Do(Observe(ticket, answer.value)), answer.value, o.afterPoll, daily)
  }

  /** The handle is given up before the worker starts, and a reader opened beside it. */
  function Begin(s: System, launches: bool, load: Load, daily: bool): System {
    var closed := s.Do(Close);
    if launches then closed.Launched().DoIf(load.works, Open(true)).DoIf(daily, Noted(Attempt))
    else Reload(closed, -1, load, daily)
  }

  function Start(s: System, r: WorkerArguments.Request, o: Outcomes, daily: bool): System {
    if s.Now().ticket != 0 && s.Poll(o.wait).None? then s
    else Begin(PollAndReload(s, o, daily), WorkerArguments.Valid(r) && o.launches, o.afterLaunch, daily)
  }

  const REINDEX := WorkerArguments.REINDEX

  /** A due refresh is scheduled only while no worker is tracked. */
  function Refresh(s: System, launches: bool, load: Load): System {
    Begin(s.Do(Scheduled), launches, load, true).DoIf(!launches, Noted(Failure))
  }

  function Tick(s: System, o: Outcomes, daily: bool, due: bool): System {
    var polled := PollAndReload(s, o, daily);
    if polled.Now().ticket == 0 && polled.Now().handle != NoHandle && daily && due then
      Refresh(polled, o.launches, o.afterLaunch)
    else polled
  }

  datatype Event =
    | TimerTick(outcomes: Outcomes, due: bool)
    | IndexCommand(request: WorkerArguments.Request, outcomes: Outcomes)
    | StartupReindex(outcomes: Outcomes)
    | WorkerExit(pid: nat, code: int)

  function Handle(s: System, e: Event, daily: bool): System {
    match e
    case TimerTick(o, due) => Tick(s, o, daily, due)
    case IndexCommand(r, o) => if s.Now().handle == NoHandle then s else Start(s, r, o, daily)
    case StartupReindex(o) => Start(s, REINDEX, o, daily)
    case WorkerExit(pid, code) => s.Exits(pid, code)
  }

  /** A run from a successful start of the program. */
  function Run(events: seq<Event>, daily: bool): System {
    if events == [] then STARTED
    else Handle(Run(events[..|events| - 1], daily), events[|events| - 1], daily)
  }

  // ----- The handlers -----

  class Frontend {
    const desk: Desktop
    const dailyRefreshReady: bool
    var runtime: Handle

    ghost predicate Valid()
      reads this, desk
    {
      desk.Valid() && runtime == After(desk.trace).handle
    }

    /** The program ends at once when its index cannot be loaded. */
    constructor (daily: bool)
      ensures Valid() && fresh(desk) && desk.Run() == STARTED && dailyRefreshReady == daily
    {
      desk := new Desktop();
      dailyRefreshReady := daily;
      runtime := Writable;
      new;
      desk.Record(Open(false));
      AfterOne([], Open(false));
    }

    method CloseRuntime()
      requires Valid()
      modifies this, desk`trace
      ensures Valid() && desk.Run() == old(desk.Run()).Do(Close)
    {
      AfterOne(desk.trace, Close);
      desk.Record(Close);
      runtime := NoHandle;
    }

    method OpenRuntime(readOnly: bool)
      requires Valid()
      modifies this, desk`trace
      ensures Valid() && desk.Run() == old(desk.Run()).Do(Open(readOnly))
    {
      AfterOne(desk.trace, Open(readOnly));
      desk.Record(Open(readOnly));
      runtime := if readOnly then ReadOnly else Writable;
    }

    ghost method RecordNote(note: Note)
      requires Valid()
      modifies desk`trace
      ensures Valid() && desk.Run() == old(desk.Run()).DoIf(dailyRefreshReady, Noted(note))
    {
      if dailyRefreshReady {
        AfterOne(desk.trace, Noted(note));
        desk.Record(Noted(note));
      }
    }

    method ReloadAfterWorker(code: int, load: Load)
      requires Valid()
      modifies this, desk`trace
      ensures Valid() && desk.Run() == Reload(old(desk.Run()), code, load, dailyRefreshReady)
    {
      hide After;
      CloseRuntime();
      if !load.works {
        return;
      }
      OpenRuntime(code != 0);
      if code == 0 && load.clean {
        RecordNote(Success);
      } else {
        RecordNote(Failure);
      }
    }

    method PollWorkerAndReload(o: Outcomes) returns (ended: bool)
      requires Valid()
      modifies this, desk
      ensures Valid() && desk.Run() == PollAndReload(old(desk.Run()), o, dailyRefreshReady)
      ensures ended <==> old(desk.ticket) != 0 && old(desk.Run()).Poll(o.wait).Some?
    {
      hide After;
      if desk.ticket == 0 {
        return false;
      }
      ghost var s, ticket := desk.Run(), desk.ticket;
      var answer := desk.Poll(o.wait);
      if answer.None? {
        return false;
      }
      AfterOne(s.trace, Observe(ticket, answer.value));
      ReloadAfterWorker(answer.value, o.afterPoll);
      ended := true;
    }

    method StartIndexWorker(r: WorkerArguments.Request, o: Outcomes) returns (started: bool)
      requires Valid()
      modifies this, desk
      ensures Valid() && desk.Run() == Start(old(desk.Run()), r, o, dailyRefreshReady)
      ensures started <==> !(old(desk.ticket) != 0 && old(desk.Run()).Poll(o.wait).None?) && WorkerArguments.Valid(r) && o.launches
    {
      hide After, Reload;
      if desk.ticket != 0 {
        var ended := PollWorkerAndReload(o);
        if !ended {
          return false;
        }
      }
      PolledHasNoTicket(old(desk.Run()), o, dailyRefreshReady);
      ghost var s := desk.Run();
      CloseRuntime();
      AfterOne(s.trace, Close);
      var launches := WorkerArguments.Valid(r) && o.launches;
      desk.LaunchTracked(launches);
      if !launches {
        ReloadAfterWorker(-1, o.afterLaunch);
        return false;
      }
      AfterOne(s.Do(Close).trace, Launch(|s.processes| + 1));
      if o.afterLaunch.works {
        OpenRuntime(true);
      }
      RecordNote(Attempt);
      started := true;
    }

    method OnTimer(o: Outcomes, due: bool)
      requires Valid()
      modifies this, desk
      ensures Valid() && desk.Run() == Tick(old(desk.Run()), o, dailyRefreshReady, due)
    {
      hide After, Reload, Begin;
      if desk.ticket != 0 {
        var _ := PollWorkerAndReload(o);
        if desk.ticket != 0 {
          return;
        }
      }
      if runtime != NoHandle && dailyRefreshReady && due {
        AfterOne(desk.trace, Scheduled);
        desk.Record(Scheduled);
        var started := StartIndexWorker(REINDEX, o);
        if !started {
          RecordNote(Failure);
        }
      }
    }

    /** Any sequence of events. */
    method HandleEvents(events: seq<Event>)
      requires Valid() && desk.Run() == STARTED
      modifies this, desk
      ensures Valid() && desk.Run() == Run(events, dailyRefreshReady)
    {
      hide After, Tick, Start;
      for i := 0 to |events|
        invariant Valid() && desk.Run() == Run(events[..i], dailyRefreshReady)
      {
        assert events[..i + 1][..i] == events[..i];
        match events[i] {
          case TimerTick(o, due) =>
            OnTimer(o, due);
          case IndexCommand(r, o) =>
            if runtime != NoHandle {
              var _ := StartIndexWorker(r, o);
            }
          case StartupReindex(o) =>
            var _ := StartIndexWorker(REINDEX, o);
          case WorkerExit(pid, code) =>
            ExitKeepsKnown(desk.Run(), pid, code);
            desk.WorkerExits(pid, code);
        }
      }
      assert events[..|events|] == events;
    }

    /** Leaving the program gives up the ticket and the handle. */
    method Destroy()
      requires Valid()
      modifies this, desk
      ensures Valid() && runtime == NoHandle && desk.ticket == 0
      ensures desk.Run() == old(desk.Run()).DoIf(old(desk.ticket) != 0, Abandon).Do(Close)
    {
      hide After;
      AfterOne(desk.trace, Abandon);
      desk.CloseTicket();
      AfterOne(desk.trace, Close);
      CloseRuntime();
    }
  }

  lemma PolledHasNoTicket(s: System, o: Outcomes, daily: bool)
    requires s.Known()
    ensures s.Now().ticket == 0 || s.Poll(o.wait).Some? ==> PollAndReload(s, o, daily).Now().ticket == 0
  {
    hide After;
    var ticket, answer := s.Now().ticket, s.Poll(o.wait);
    if ticket != 0 && answer.Some? {
      var code := answer.value;
      var a := s.Do(Observe(ticket, code));
      AfterOne(s.trace, Observe(ticket, code));
      AfterOne(a.trace, Close);
      AfterOne(a.Do(Close).trace, Open(code != 0));
      AfterOne(a.Do(Close).Do(Open(code != 0)).trace, Noted(Success));
      AfterOne(a.Do(Close).Do(Open(code != 0)).trace, Noted(Failure));
    }
  }

  // ----- Rules that hold at every action of every run -----

  /** `code` is 0 only right after that was observed. */
  lemma ReloadGood(s: System, code: int, load: Load, daily: bool)
    requires s.Known() && Safe(Windows, s.trace) && s.Now().ticket == 0 && s.trace != []
    requires code == 0 ==> s.trace[|s.trace| - 1].Observe? && s.trace[|s.trace| - 1].code == 0
    ensures var r := Reload(s, code, load, daily);
            r.Known() && Safe(Windows, r.trace) && r.trace != [] && r.Now().ticket == 0
            && (s.Now().pending && !(load.works && daily) <==> r.Now().pending)
    ensures Reload(s, code, load, daily).processes == s.processes
  {
    hide After, Safe;
    DoGood(Windows, s, Close);
    var closed := s.Do(Close);
    if load.works {
      DoGood(Windows, closed, Open(code != 0));
      if daily {
        DoGood(Windows, closed.Do(Open(code != 0)), Noted(if code == 0 && load.clean then Success else Failure));
      }
    }
  }

  lemma PollAndReloadGood(s: System, o: Outcomes, daily: bool)
    requires Good(Windows, s)
    ensures var r := PollAndReload(s, o, daily);
            Good(Windows, r) && (s.Now().ticket == 0 || s.Poll(o.wait).Some? ==> r.Now().ticket == 0) && r.processes == s.processes
  {
    hide After, Safe, Reload;
    var ticket, answer := s.Now().ticket, s.Poll(o.wait);
    if ticket != 0 && answer.Some? {
      DoGood(Windows, s, Observe(ticket, answer.value));
      ReloadGood(s.Do(Observe(ticket, answer.value)), answer.value, o.afterPoll, daily);
    }
  }

  lemma BeginGood(s: System, launches: bool, load: Load, daily: bool)
    requires s.Known() && Safe(Windows, s.trace) && s.Now().ticket == 0
    requires s.Now().pending ==> daily
    ensures var r := Begin(s, launches, load, daily);
            r.Known() && r.trace != [] && Safe(Windows, r.trace)
            && (r.Now().pending ==> s.Now().pending && !launches && !load.works)
  {
    hide After, Safe, Reload;
    DoGood(Windows, s, Close);
    var closed := s.Do(Close);
    if launches {
      LaunchGood(Windows, closed);
      var a := closed.Launched();
      if load.works {
        DoGood(Windows, a, Open(true));
      }
      DoGood(Windows, a.DoIf(load.works, Open(true)), Noted(Attempt));
    } else {
      ReloadGood(closed, -1, load, daily);
    }
  }

  lemma StartGood(s: System, r: WorkerArguments.Request, o: Outcomes, daily: bool)
    requires Good(Windows, s)
    ensures Good(Windows, Start(s, r, o, daily))
  {
    hide After, Safe, Begin, PollAndReload, WorkerArguments.Valid;
    PollAndReloadGood(s, o, daily);
    if s.Now().ticket == 0 || s.Poll(o.wait).Some? {
      BeginGood(PollAndReload(s, o, daily), WorkerArguments.Valid(r) && o.launches, o.afterLaunch, daily);
    }
  }

  lemma TickGood(s: System, o: Outcomes, daily: bool, due: bool)
    requires Good(Windows, s)
    ensures Good(Windows, Tick(s, o, daily, due))
  {
    hide After, Safe, Begin, PollAndReload;
    PollAndReloadGood(s, o, daily);
    var p := PollAndReload(s, o, daily);
    if p.Now().ticket == 0 && p.Now().handle != NoHandle && daily && due {
      DoGood(Windows, p, Scheduled);
      BeginGood(p.Do(Scheduled), o.launches, o.afterLaunch, true);
      var b := Begin(p.Do(Scheduled), o.launches, o.afterLaunch, true);
      if !o.launches {
        DoGood(Windows, b, Noted(Failure));
      }
    }
  }

  /** Every run obeys the rules at every action. */
  lemma {:induction false} RunGood(events: seq<Event>, daily: bool)
    ensures Good(Windows, Run(events, daily))
  {
    hide After, Safe, Tick, Start;
    if events == [] {
      StartedGood(Windows);
    } else {
      var s, e := Run(events[..|events| - 1], daily), events[|events| - 1];
      RunGood(events[..|events| - 1], daily);
      match e
      case TimerTick(o, due) => TickGood(s, o, daily, due);
      case IndexCommand(r, o) => StartGood(s, r, o, daily);
      case StartupReindex(o) => StartGood(s, REINDEX, o, daily);
      case WorkerExit(pid, code) => ExitGood(Windows, s, pid, code);
    }
  }

  /** In every run, at every point: while the ticket is valid the frontend's handle is
      absent or read-only; a writable handle is opened at the start of the program or when
      exit code 0 has just been observed; a success is recorded only then; a refresh is
      scheduled without a worker, and something was recorded of every earlier one. */
  lemma EveryRunIsExclusive(events: seq<Event>, daily: bool, n: nat)
    requires n < |Run(events, daily).trace|
    ensures var t := Run(events, daily).trace;
            && (After(t[..n]).ticket != 0 ==> After(t[..n]).handle != Writable)
            && (t[n] == Open(false) && n > 0 ==> WorkerSucceeded(t[..n]))
            && (t[n] == Noted(Success) ==> EndsWith(t[..n], Open(false)))
            && (t[n].Launch? ==> After(t[..n]).ticket == 0 && After(t[..n]).handle == NoHandle)
            && (t[n] == Scheduled ==> After(t[..n]).ticket == 0 && !After(t[..n]).pending)
  {
    hide After, Run, EndsWith;
    RunGood(events, daily);
    var t := Run(events, daily).trace;
    SafePrefix(Windows, t, n);
    TicketExcludes(Windows, t[..n]);
  }

  // ----- What every event leads to -----

  /** The events that ask about the tracked process, with what they meet on the way. */
  predicate Asks(s: System, e: Event, o: Outcomes) {
    match e
    case TimerTick(outcomes, _) => o == outcomes
    case IndexCommand(_, outcomes) => s.Now().handle != NoHandle && o == outcomes
    case StartupReindex(outcomes) => o == outcomes
    case WorkerExit(_, _) => false
  }

  /** The actions that follow an observed end. */
  lemma EndedWorkerIsReloaded(s: System, o: Outcomes, code: int, daily: bool)
    requires s.Known() && Seen(s, o.wait, code)
    ensures PollAndReload(s, o, daily).trace
            == s.trace + [Observe(s.Now().ticket, code), Close]
            + (if !o.afterPoll.works then []
               else if !daily then [Open(code != 0)]
               else [Open(code != 0), Noted(if code == 0 && o.afterPoll.clean then Success else Failure)])
  {
    hide After;
    SeenIffPolled(s, o.wait, code);
  }

  lemma PollsFirst(s: System, e: Event, o: Outcomes, daily: bool)
    requires s.Known() && Asks(s, e, o) && s.Now().ticket != 0
    ensures PollAndReload(s, o, daily).trace <= Handle(s, e, daily).trace
    ensures StillRuns(s, o.wait) ==> Handle(s, e, daily) == s
  {
    hide After, Reload, WorkerArguments.Valid;
    SeenIffPolled(s, o.wait, 0);
    var p := PollAndReload(s, o, daily);
    ReloadGrows(p.Do(Close), -1, o.afterLaunch, daily);
    ReloadGrows(p.Do(Scheduled).Do(Close), -1, o.afterLaunch, true);
  }

  lemma ReloadGrows(s: System, code: int, load: Load, daily: bool)
    ensures s.trace <= Reload(s, code, load, daily).trace
  {
    hide After;
  }

  /** In every run: exit code 0 and a clean load are followed at once by a writable handle and
      by the record of a success; anything else is followed by a reader and the record of a
      failure, or by no handle when loading fails. */
  lemma EndIsHandled(events: seq<Event>, e: Event, o: Outcomes, code: int, daily: bool)
    requires var s := Run(events, daily); Asks(s, e, o) && Seen(s, o.wait, code)
    ensures var s := Run(events, daily);
            var seen := s.trace + [Observe(s.Now().ticket, code), Close];
            var t := Run(events + [e], daily).trace;
            && seen <= t
            && (o.afterPoll.works ==> seen + [Open(code != 0)] <= t)
            && (daily && o.afterPoll.works && o.afterPoll.clean && code == 0 ==> seen + [Open(false), Noted(Success)] <= t)
            && (daily && o.afterPoll.works && !(o.afterPoll.clean && code == 0) ==> seen + [Open(code != 0), Noted(Failure)] <= t)
  {
    hide Run, After, Handle, PollAndReload, Safe, Seen, Asks;
    RunGood(events, daily);
    var s := Run(events, daily);
    assert s.Now().ticket != 0 by {
      SeenIffPolled(s, o.wait, code);
    }
    EndedWorkerIsReloaded(s, o, code, daily);
    PollsFirst(s, e, o, daily);
    RunOne(events, e, daily);
  }

  /** While the worker runs none of these events does anything. */
  lemma RunningWorkerIsLeftAlone(events: seq<Event>, e: Event, o: Outcomes, daily: bool)
    requires var s := Run(events, daily); Asks(s, e, o) && StillRuns(s, o.wait)
    ensures Run(events + [e], daily) == Run(events, daily)
  {
    hide Run, After, Handle, PollAndReload, Safe;
    RunGood(events, daily);
    PollsFirst(Run(events, daily), e, o, daily);
    RunOne(events, e, daily);
  }

  lemma RunOne(events: seq<Event>, e: Event, daily: bool)
    ensures Run(events + [e], daily) == Handle(Run(events, daily), e, daily)
  {
    hide Handle;
    assert (events + [e])[..|events + [e]| - 1] == events;
  }

  /** What a start does when no worker is tracked: the handle goes first, and a worker that
      could not be started leaves a reader and the record of a failure. */
  lemma BeginActs(s: System, launches: bool, load: Load, daily: bool)
    ensures var b := Begin(s, launches, load, daily);
            b.trace == s.trace
            + (if launches then [Close, Launch(|s.processes| + 1)] else [Close, Close])
            + (if load.works then [Open(true)] else [])
            + (if daily && launches then [Noted(Attempt)]
               else if daily && load.works then [Noted(Failure)]
               else [])
            && b.processes == if launches then s.processes + [Running] else s.processes
  {
    hide After;
  }

  /** What a start begins with when no worker runs, or once its end has been handled. */
  lemma PolledIsIdle(s: System, o: Outcomes, daily: bool)
    requires s.Known() && !StillRuns(s, o.wait)
    ensures PollAndReload(s, o, daily).Now().ticket == 0 && PollAndReload(s, o, daily).processes == s.processes
  {
    hide After;
    SeenIffPolled(s, o.wait, 0);
    PolledHasNoTicket(s, o, daily);
  }

  /** Unless a worker runs, a request starts one, or ends with a reader again. */
  lemma RequestStarts(s: System, e: Event, o: Outcomes, daily: bool)
    requires s.Known() && Asks(s, e, o) && !e.TimerTick? && !StillRuns(s, o.wait)
    ensures var starts, r := o.launches && (e.IndexCommand? ==> WorkerArguments.Valid(e.request)), Handle(s, e, daily);
            r.trace == PollAndReload(s, o, daily).trace
            + (if starts then [Close, Launch(|s.processes| + 1)] else [Close, Close])
            + (if o.afterLaunch.works then [Open(true)] else [])
            + (if daily && starts then [Noted(Attempt)]
               else if daily && o.afterLaunch.works then [Noted(Failure)]
               else [])
            && r.processes == if starts then s.processes + [Running] else s.processes
  {
    hide After, Begin, PollAndReload, WorkerArguments.Valid;
    assert WorkerArguments.Valid(REINDEX) by {
      ReindexIsValid();
    }
    SeenIffPolled(s, o.wait, 0);
    PolledIsIdle(s, o, daily);
    var starts := o.launches && (e.IndexCommand? ==> WorkerArguments.Valid(e.request));
    BeginActs(PollAndReload(s, o, daily), starts, o.afterLaunch, daily);
  }

  lemma ReindexIsValid()
    ensures WorkerArguments.Valid(REINDEX)
  {
  }

  /** Unless a worker runs, a tick starts the refresh exactly when it is due and a runtime
      is open. */
  lemma TickActs(s: System, o: Outcomes, daily: bool, due: bool)
    requires s.Known() && !StillRuns(s, o.wait)
    ensures var polled, t := PollAndReload(s, o, daily), Handle(s, TimerTick(o, due), daily).trace;
            if daily && due && polled.Now().handle != NoHandle then
              t == polled.trace
              + (if o.launches then [Scheduled, Close, Launch(|s.processes| + 1)] else [Scheduled, Close, Close])
              + (if o.afterLaunch.works then [Open(true)] else [])
              + (if o.launches then [Noted(Attempt)] else if o.afterLaunch.works then [Noted(Failure), Noted(Failure)] else [Noted(Failure)])
            else t == polled.trace
  {
    hide After, Begin, PollAndReload;
    PolledIsIdle(s, o, daily);
    BeginActs(PollAndReload(s, o, daily).Do(Scheduled), o.launches, o.afterLaunch, true);
  }

  // ----- Waits that lose the worker -----

  lemma TruthfulReload(s: System, code: int, load: Load, daily: bool)
    ensures Truthful(Reload(s, code, load, daily).trace) <==> Truthful(s.trace)
  {
    hide Truthful, After;
    TruthfulOne(s.trace, Close);
    var closed := s.Do(Close);
    TruthfulOne(closed.trace, Open(code != 0));
    var note := Noted(if code == 0 && load.clean then Success else Failure);
    TruthfulOne(closed.Do(Open(code != 0)).trace, note);
  }

  lemma TruthfulPoll(s: System, o: Outcomes, daily: bool)
    requires s.Known()
    ensures Truthful(PollAndReload(s, o, daily).trace) <==> Truthful(s.trace) && !LosesTracked(s, o.wait)
  {
    hide Truthful, After, Reload;
    var ticket, answer := s.Now().ticket, s.Poll(o.wait);
    if ticket != 0 && answer.Some? {
      TruthfulOne(s.trace, Observe(ticket, answer.value));
      TruthfulReload(s.Do(Observe(ticket, answer.value)), answer.value, o.afterPoll, daily);
    }
  }

  lemma TruthfulBegin(s: System, launches: bool, load: Load, daily: bool)
    ensures Truthful(Begin(s, launches, load, daily).trace) <==> Truthful(s.trace)
  {
    hide Truthful, After, Reload;
    TruthfulOne(s.trace, Close);
    var closed := s.Do(Close);
    TruthfulReload(closed, -1, load, daily);
    var a := closed.Launched();
    TruthfulOne(closed.trace, Launch(|s.processes| + 1));
    TruthfulOne(a.trace, Open(true));
    TruthfulOne(a.DoIf(load.works, Open(true)).trace, Noted(Attempt));
  }

  /** The events that ask for the tracked process in vain while it runs.  An index command
      without a runtime asks for nothing. */
  predicate LosesWorker(s: System, e: Event) {
    match e
    case TimerTick(o, _) => LosesTracked(s, o.wait)
    case IndexCommand(_, o) => s.Now().handle != NoHandle && LosesTracked(s, o.wait)
    case StartupReindex(o) => LosesTracked(s, o.wait)
    case WorkerExit(_, _) => false
  }

  lemma TruthfulStart(s: System, r: WorkerArguments.Request, o: Outcomes, daily: bool)
    requires s.Known()
    ensures Truthful(Start(s, r, o, daily).trace) <==> Truthful(s.trace) && !LosesTracked(s, o.wait)
  {
    hide Truthful, After, PollAndReload, Begin, WorkerArguments.Valid;
    TruthfulPoll(s, o, daily);
    TruthfulBegin(PollAndReload(s, o, daily), WorkerArguments.Valid(r) && o.launches, o.afterLaunch, daily);
  }

  lemma TruthfulHandle(s: System, e: Event, daily: bool)
    requires s.Known()
    ensures Truthful(Handle(s, e, daily).trace) <==> Truthful(s.trace) && !LosesWorker(s, e)
  {
    hide Truthful, After, PollAndReload, Begin, Start, LosesTracked;
    match e
    case TimerTick(o, due) =>
      TruthfulPoll(s, o, daily);
      var p := PollAndReload(s, o, daily);
      TruthfulOne(p.trace, Scheduled);
      TruthfulBegin(p.Do(Scheduled), o.launches, o.afterLaunch, true);
      TruthfulOne(Begin(p.Do(Scheduled), o.launches, o.afterLaunch, true).trace, Noted(Failure));
    case IndexCommand(r, o) => TruthfulStart(s, r, o, daily);
    case StartupReindex(o) => TruthfulStart(s, REINDEX, o, daily);
    case WorkerExit(pid, code) =>
      TruthfulOne(s.trace, Exit(pid, code));
  }

  ghost predicate NeverLoses(events: seq<Event>, daily: bool) {
    forall i | 0 <= i < |events| :: !LosesWorker(Run(events[..i], daily), events[i])
  }

  lemma NeverLosesOne(front: seq<Event>, e: Event, daily: bool)
    ensures NeverLoses(front + [e], daily) <==> NeverLoses(front, daily) && !LosesWorker(Run(front, daily), e)
  {
    hide Run, LosesWorker;
    var events := front + [e];
    assert forall i | 0 <= i < |front| :: events[..i] == front[..i] && events[i] == front[i];
    assert events[..|front|] == front && events[|front|] == e;
  }

  lemma {:induction false} TruthfulRun(events: seq<Event>, daily: bool)
    ensures Truthful(Run(events, daily).trace) <==> NeverLoses(events, daily)
  {
    hide Truthful, After, Handle, NeverLoses, LosesWorker;
    if events == [] {
      TruthfulStarted(daily);
    } else {
      var front, e := events[..|events| - 1], events[|events| - 1];
      assert events == front + [e];
      TruthfulRun(front, daily);
      RunGood(front, daily);
      NeverLosesOne(front, e, daily);
      TruthfulHandle(Run(front, daily), e, daily);
    }
  }

  lemma TruthfulStarted(daily: bool)
    ensures Truthful(STARTED.trace) && NeverLoses([], daily)
  {
  }

  /** In a run, no process but the tracked one ever runs, and none while the frontend could
      write, exactly when no event takes the tracked process for ended while it runs. */
  lemma NoWorkerIsLostIff(events: seq<Event>, daily: bool)
    ensures var t := Run(events, daily).trace;
            (forall n: nat | n <= |t| :: Exclusive(Windows, After(t[..n]))) <==> NeverLoses(events, daily)
  {
    hide Run, Truthful, Safe, Exclusive, After, NeverLoses;
    RunGood(events, daily);
    TruthfulRun(events, daily);
    ExclusiveIffTruthful(Windows, Run(events, daily).trace);
  }

  // ----- With a wait that fails -----

  const FINE := Outcomes(Works, true, Load(true, true), Load(true, true))

  /** A wait fails while the first worker runs; the second worker succeeds. */
  const LOST_WORKER := [
    IndexCommand(REINDEX, FINE), TimerTick(FINE.(wait := Fails(1)), false),
    IndexCommand(REINDEX, FINE), WorkerExit(2, 0), TimerTick(FINE, false)]

  /** After one such failure the frontend can end up writing while
      the worker it lost sight of still runs. */
  lemma FailedWaitLosesAWorker()
    ensures var w := Run(LOST_WORKER, false).Now();
            w.handle == Writable && w.running == {1}
  {
    hide Run, After, Handle;
    var e, s0 := LOST_WORKER, STARTED;
    StartedGood(Windows);
    var s1 := Started(s0);
    var s2 := Ended(s1, 1, 1);
    var s3 := Started(s2);
    var s4 := s3.Exits(2, 0);
    AfterOne(s3.trace, Exit(2, 0));
    var s5 := Ended(s4, 2, 0);
    HandleStart(s0, REINDEX);
    HandleTick(s1, FINE.(wait := Fails(1)), 1);
    HandleStart(s2, REINDEX);
    HandleTick(s4, FINE, 0);
    assert Handle(s3, e[3], false) == s4 by {
      HandleExit(s3);
    }
    RunSteps(e);
    assert s5.Now().running == {1};
  }

  lemma HandleStart(s: System, r: WorkerArguments.Request)
    requires s.Now().ticket == 0 && s.Now().handle != NoHandle && WorkerArguments.Valid(r)
    ensures Handle(s, IndexCommand(r, FINE), false) == s.Do(Close).Launched().Do(Open(true))
  {
    hide After;
  }

  lemma HandleTick(s: System, o: Outcomes, code: int)
    requires s.Now().ticket != 0 && s.Poll(o.wait) == Some(code) && o.afterPoll.works
    ensures Handle(s, TimerTick(o, false), false) == s.Do(Observe(s.Now().ticket, code)).Do(Close).Do(Open(code != 0))
  {
    hide After;
  }

  lemma HandleExit(s: System)
    ensures Handle(s, WorkerExit(2, 0), false) == s.Exits(2, 0)
  {
    hide After;
  }

  lemma Does(s: System, a: Action)
    ensures s.Do(a).Now() == Apply(s.Now(), a)
  {
    AfterOne(s.trace, a);
  }

  lemma Started(s: System) returns (r: System)
    ensures r == s.Do(Close).Launched().Do(Open(true))
    ensures r.Now() == World(ReadOnly, |s.processes| + 1, s.Now().running + {|s.processes| + 1}, s.Now().pending)
  {
    hide After;
    Does(s, Close);
    AfterOne(s.Do(Close).trace, Launch(|s.processes| + 1));
    r := s.Do(Close).Launched().Do(Open(true));
    Does(s.Do(Close).Launched(), Open(true));
  }

  lemma Ended(s: System, pid: nat, code: int) returns (r: System)
    ensures r == s.Do(Observe(pid, code)).Do(Close).Do(Open(code != 0))
    ensures r.Now() == World(if code != 0 then ReadOnly else Writable, 0, s.Now().running, s.Now().pending)
  {
    hide After;
    Does(s, Observe(pid, code));
    Does(s.Do(Observe(pid, code)), Close);
    r := s.Do(Observe(pid, code)).Do(Close).Do(Open(code != 0));
    Does(s.Do(Observe(pid, code)).Do(Close), Open(code != 0));
  }

  lemma RunSteps(e: seq<Event>)
    requires |e| == 5
    ensures Run(e, false)
            == Handle(Handle(Handle(Handle(Handle(STARTED, e[0], false), e[1], false), e[2], false), e[3], false), e[4], false)
  {
    hide Handle, Run;
    RunOne(e[..0], e[0], false);
    RunOne(e[..1], e[1], false);
    RunOne(e[..2], e[2], false);
    RunOne(e[..3], e[3], false);
    RunOne(e[..4], e[4], false);
    assert e[..0] + [e[0]] == e[..1] && e[..1] + [e[1]] == e[..2] && e[..2] + [e[2]] == e[..3];
    assert e[..3] + [e[3]] == e[..4] && e[..4] + [e[4]] == e;
    RunNothing();
  }

  lemma RunNothing()
    ensures Run([], false) == STARTED
  {
  }
}
