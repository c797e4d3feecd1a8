/** The Linux frontend's handling of its runtime and its index worker.

    Its runtime client loads itself whenever a mutating call needs it, so that the rule
    of ownership holds for every event but one.
  */
module LinuxFrontend {

  import opened Results
  import opened WorkerOwnership
  import WorkerArguments

  // ----- What each handler does -----

  /** Loading a client that is already loaded does nothing and succeeds. */
  function EnsureReady(s: System, load: Load): System {
    s.DoIf(s.Now().handle == NoHandle && load.works, Open(false))
  }

  predicate ReadyAfter(s: System, load: Load) {
    s.Now().handle != NoHandle || load.works
  }

  function Reload(s: System, code: int, load: Load, daily: bool): System {
    EnsureReady(s, load).DoIf(ReadyAfter(s, load) && daily, Noted(if code == 0 && load.clean then Success else Failure))
  }

  function PollAndReload(s: System, o: Outcomes, daily: bool): System {
    var ticket, answer := s.Now().ticket, s.Poll(o.wait);
    if ticket == 0 || answer.None? then s
    else Reload(s.Do(Observe(ticket, answer.value)), answer.value, o.afterPoll, daily)
  }

  function Begin(s: System, launches: bool, load: Load, daily: bool): System {
    var closed := s.Do(Close);
    if launches then closed.Launched().DoIf(daily, Noted(Attempt)) else closed.DoIf(load.works, Open(false))
  }

  predicate Refused(s: System, o: Outcomes) {
    s.Now().ticket != 0 && s.Poll(o.wait).None?
  }

  function Start(s: System, r: WorkerArguments.Request, o: Outcomes, daily: bool): System {
    if Refused(s, o) then s
    else Begin(PollAndReload(s, o, daily), WorkerArguments.Valid(r) && o.launches, o.afterLaunch, daily)
  }

  const REINDEX := WorkerArguments.REINDEX

  predicate RefreshDue(s: System, daily: bool, due: bool) {
    s.Now().ticket == 0 && s.Now().handle != NoHandle && daily && due
  }

  function Tick(s: System, o: Outcomes, daily: bool, due: bool): System {
    var polled := PollAndReload(s, o, daily);
    if RefreshDue(polled, daily, due) then
      Begin(polled.Do(Scheduled), o.launches, o.afterLaunch, true).DoIf(!o.launches, Noted(Failure))
    else polled
  }

  // ----- Rows -----

  /** What the search box holds: a folder picker lists mounted folders, with or without
      a runtime; a list of roots and an ordinary query need one. */
  datatype Query = Picker | Roots | Ordinary | WithoutRows

  function Rows(query: Query, s: System, found: nat): nat {
    match query
    case Picker => found
    case WithoutRows => 0
    case _ => if s.Now().handle != NoHandle then found else 0
  }

  datatype Window = Window(system: System, query: Query, rows: nat)

  datatype Event =
    | TimerTick(outcomes: Outcomes, due: bool, changed: bool, found: nat)
    | IndexCommand(request: WorkerArguments.Request, outcomes: Outcomes, found: nat)
    | Typed(query: Query, found: nat)
    | ToggleRow(row: nat, load: Load, found: nat)
    | WorkerExit(pid: nat, code: int)

  /** The rows after polling: refreshed when the runtime was reloaded. */
  function RowsAfterPoll(w: Window, o: Outcomes, daily: bool, found: nat): nat {
    var polled := PollAndReload(w.system, o, daily);
    if w.system.Now().ticket != 0 && w.system.Poll(o.wait).Some? && polled.Now().handle != NoHandle then
      Rows(w.query, polled, found)
    else w.rows
  }

  function TickWindow(w: Window, o: Outcomes, daily: bool, due: bool, changed: bool, found: nat): Window {
    var polled := PollAndReload(w.system, o, daily);
    var rows := RowsAfterPoll(w, o, daily, found);
    var refreshed := if polled.Now().handle != NoHandle && changed then Rows(w.query, polled, found) else rows;
    Window(Tick(w.system, o, daily, due), w.query, if RefreshDue(polled, daily, due) then 0 else refreshed)
  }

  function CommandWindow(w: Window, r: WorkerArguments.Request, o: Outcomes, daily: bool): Window {
    var system := Start(w.system, r, o, daily);
    if Refused(w.system, o) then w.(system := system)
    else Window(system, if WorkerArguments.Valid(r) && o.launches then Ordinary else w.query, 0)
  }

  /** Pinning or hiding a row loads the client when it is not loaded. */
  function ToggleWindow(w: Window, row: nat, load: Load, found: nat): Window {
    if row >= w.rows then w
    else
      var s := EnsureReady(w.system, load);
      Window(s, w.query, Rows(w.query, s, found))
  }

  function Handle(w: Window, e: Event, daily: bool): Window {
    match e
    case TimerTick(o, due, changed, found) => TickWindow(w, o, daily, due, changed, found)
    case IndexCommand(r, o, _) => CommandWindow(w, r, o, daily)
    case Typed(query, found) => Window(w.system, query, Rows(query, w.system, found))
    case ToggleRow(row, load, found) => ToggleWindow(w, row, load, found)
    case WorkerExit(pid, code) => w.(system := w.system.Exits(pid, code))
  }

  const OPENED := Window(STARTED, Ordinary, 0)

  function Run(events: seq<Event>, daily: bool): Window {
    if events == [] then OPENED
    else Handle(Run(events[..|events| - 1], daily), events[|events| - 1], daily)
  }

  // ----- The handlers -----

  class Frontend {
    const desk: Desktop
    const dailyStateReady: bool
    var runtime: Handle
    var query: Query
    var rows: nat

    ghost predicate Valid()
      reads this, desk
    {
      desk.Valid() && runtime == After(desk.trace).handle
    }

    ghost function State(): Window
      reads this, desk
    {
      Window(desk.Run(), query, rows)
    }

    constructor (daily: bool)
      ensures Valid() && fresh(desk) && State() == OPENED && dailyStateReady == daily
    {
      desk := new Desktop();
      dailyStateReady := daily;
      runtime, query, rows := Writable, Ordinary, 0;
      new;
      desk.Record(Open(false));
      AfterOne([], Open(false));
    }

    method LoadRuntime(load: Load) returns (ok: bool)
      requires Valid()
      modifies this`runtime, desk`trace
      ensures Valid() && desk.Run() == EnsureReady(old(desk.Run()), load)
      ensures ok == ReadyAfter(old(desk.Run()), load) == (runtime != NoHandle)
    {
      if runtime == NoHandle && load.works {
        AfterOne(desk.trace, Open(false));
        desk.Record(Open(false));
        runtime := Writable;
      }
      ok := runtime != NoHandle;
    }

    method UnloadRuntime()
      requires Valid()
      modifies this`runtime, desk`trace
      ensures Valid() && desk.Run() == old(desk.Run()).Do(Close)
    {
      AfterOne(desk.trace, Close);
      desk.Record(Close);
      runtime := NoHandle;
    }

    ghost method RecordNote(note: Note)
      requires Valid()
      modifies desk`trace
      ensures Valid() && desk.Run() == old(desk.Run()).DoIf(dailyStateReady, Noted(note))
    {
      if dailyStateReady {
        AfterOne(desk.trace, Noted(note));
        desk.Record(Noted(note));
      }
    }

    method RefreshQuery(found: nat)
      requires Valid()
      modifies this`rows
      ensures Valid() && rows == Rows(query, desk.Run(), found)
    {
      match query {
        case Picker => rows := found;
        case WithoutRows => rows := 0;
        case _ => rows := if runtime != NoHandle then found else 0;
      }
    }

    method ReloadAfterWorker(code: int, load: Load, found: nat)
      requires Valid()
      modifies this`runtime, this`rows, desk`trace
      ensures Valid() && desk.Run() == Reload(old(desk.Run()), code, load, dailyStateReady)
      ensures rows == if ReadyAfter(old(desk.Run()), load) then Rows(query, desk.Run(), found) else old(rows)
    {
      hide After;
      var ok := LoadRuntime(load);
      if !ok {
        return;
      }
      RefreshQuery(found);
      ghost var s := desk.Run();
      AfterOne(s.trace, Noted(Success));
      AfterOne(s.trace, Noted(Failure));
      if code == 0 && load.clean {
        RecordNote(Success);
      } else {
        RecordNote(Failure);
      }
    }

    method PollWorker(o: Outcomes, found: nat) returns (ended: bool)
      requires Valid()
      modifies this`runtime, this`rows, desk
      ensures Valid() && desk.Run() == PollAndReload(old(desk.Run()), o, dailyStateReady)
      ensures ended <==> old(desk.ticket) != 0 && old(desk.Run()).Poll(o.wait).Some?
      ensures rows == RowsAfterPoll(old(State()), o, dailyStateReady, found)
    {
      hide After;
      if desk.ticket == 0 {
        return false;
      }
      ghost var s, ticket := desk.Run(), desk.ticket;
      var answer := desk.Poll(o.wait);
      if answer.None? {
        return false;
      }
      AfterOne(s.trace, Observe(ticket, answer.value));
      ReloadKeepsHandle(desk.Run(), answer.value, o.afterPoll, dailyStateReady);
      ReloadAfterWorker(answer.value, o.afterPoll, found);
      ended := true;
    }

    method StartIndexWorker(r: WorkerArguments.Request, o: Outcomes, found: nat) returns (started: bool)
      requires Valid()
      modifies this`runtime, this`rows, desk
      ensures Valid() && desk.Run() == Start(old(desk.Run()), r, o, dailyStateReady)
      ensures started <==> !Refused(old(desk.Run()), o) && WorkerArguments.Valid(r) && o.launches
      ensures rows == if Refused(old(desk.Run()), o) then old(rows) else 0
    {
      hide After, Reload;
      if desk.ticket != 0 {
        var ended := PollWorker(o, found);
        if !ended {
          return false;
        }
      }
      PolledHasNoTicket(old(desk.Run()), o, dailyStateReady);
      ghost var s := desk.Run();
      UnloadRuntime();
      AfterOne(s.trace, Close);
      rows := 0;
      var launches := WorkerArguments.Valid(r) && o.launches;
      desk.LaunchTracked(launches);
      if !launches {
        var _ := LoadRuntime(o.afterLaunch);
        return false;
      }
      AfterOne(s.Do(Close).trace, Launch(|s.processes| + 1));
      RecordNote(Attempt);
      started := true;
    }

    method OnIdle(o: Outcomes, due: bool, changed: bool, found: nat)
      requires Valid()
      modifies this`runtime, this`rows, desk
      ensures Valid() && State() == TickWindow(old(State()), o, dailyStateReady, due, changed, found)
    {
      hide After, Reload, Begin, Rows, PollAndReload, RowsAfterPoll;
      var _ := PollWorker(o, found);
      if runtime != NoHandle && changed {
        RefreshQuery(found);
      }
      if dailyStateReady && runtime != NoHandle && desk.ticket == 0 && due {
        ghost var s := desk.Run();
        AfterOne(desk.trace, Scheduled);
        desk.Record(Scheduled);
        PollNothing(desk.Run(), o, dailyStateReady);
        var started := StartIndexWorker(REINDEX, o, found);
        if !started {
          RecordNote(Failure);
        }
      }
    }

    method OnIndexCommand(r: WorkerArguments.Request, o: Outcomes, found: nat)
      requires Valid()
      modifies this`runtime, this`rows, this`query, desk
      ensures Valid() && State() == CommandWindow(old(State()), r, o, dailyStateReady)
    {
      hide After, Start;
      var started := StartIndexWorker(r, o, found);
      if started {
        query := Ordinary;
      }
    }

    method PerformToggle(row: nat, load: Load, found: nat)
      requires Valid()
      modifies this`runtime, this`rows, desk`trace
      ensures Valid() && State() == ToggleWindow(old(State()), row, load, found)
    {
      hide After;
      if row >= rows {
        return;
      }
      var _ := LoadRuntime(load);
      RefreshQuery(found);
    }

    method HandleEvents(events: seq<Event>)
      requires Valid() && State() == OPENED
      modifies this`runtime, this`rows, this`query, desk
      ensures Valid() && State() == Run(events, dailyStateReady)
    {
      hide After, TickWindow, CommandWindow, ToggleWindow;
      for i := 0 to |events|
        invariant Valid() && State() == Run(events[..i], dailyStateReady)
      {
        assert events[..i + 1][..i] == events[..i];
        match events[i] {
          case TimerTick(o, due, changed, found) =>
            OnIdle(o, due, changed, found);
          case IndexCommand(r, o, found) =>
            OnIndexCommand(r, o, found);
          case Typed(q, found) =>
            query := q;
            RefreshQuery(found);
          case ToggleRow(row, load, found) =>
            PerformToggle(row, load, found);
          case WorkerExit(pid, code) =>
            ExitKeepsKnown(desk.Run(), pid, code);
            desk.WorkerExits(pid, code);
        }
      }
      assert events[..|events|] == events;
    }
  }

  lemma ReloadKeepsHandle(s: System, code: int, load: Load, daily: bool)
    ensures (Reload(s, code, load, daily).Now().handle != NoHandle) == ReadyAfter(s, load)
    ensures Reload(s, code, load, daily).Now().ticket == s.Now().ticket
  {
    hide After;
    AfterOne(s.trace, Open(false));
    var ready := EnsureReady(s, load);
    AfterOne(ready.trace, Noted(Success));
    AfterOne(ready.trace, Noted(Failure));
  }

  lemma PolledHasNoTicket(s: System, o: Outcomes, daily: bool)
    ensures !Refused(s, o) ==> PollAndReload(s, o, daily).Now().ticket == 0
  {
    hide After, Reload;
    var ticket, answer := s.Now().ticket, s.Poll(o.wait);
    if ticket != 0 && answer.Some? {
      AfterOne(s.trace, Observe(ticket, answer.value));
      ReloadKeepsHandle(s.Do(Observe(ticket, answer.value)), answer.value, o.afterPoll, daily);
    }
  }

  lemma PollNothing(s: System, o: Outcomes, daily: bool)
    requires s.Now().ticket == 0
    ensures PollAndReload(s, o, daily) == s && !Refused(s, o)
  {
    hide After;
  }

  // ----- Rules for every action -----

  lemma EnsureReadyGood(s: System, load: Load)
    requires Good(Linux, s) && s.Now().ticket == 0
    ensures Good(Linux, EnsureReady(s, load)) && EnsureReady(s, load).Now().ticket == 0
  {
    hide After, Safe;
    if s.Now().handle == NoHandle && load.works {
      DoGood(Linux, s, Open(false));
    }
  }

  lemma ReloadGood(s: System, code: int, load: Load, daily: bool)
    requires Good(Linux, s) && s.Now().ticket == 0
    requires code == 0 ==> s.trace != [] && s.trace[|s.trace| - 1].Observe? && s.trace[|s.trace| - 1].code == 0
    ensures Good(Linux, Reload(s, code, load, daily)) && Reload(s, code, load, daily).Now().ticket == 0
  {
    hide After, Safe;
    EnsureReadyGood(s, load);
    if ReadyAfter(s, load) && daily {
      DoGood(Linux, EnsureReady(s, load), Noted(if code == 0 && load.clean then Success else Failure));
    }
  }

  lemma PollAndReloadGood(s: System, o: Outcomes, daily: bool)
    requires Good(Linux, s)
    ensures Good(Linux, PollAndReload(s, o, daily))
  {
    hide After, Safe, Reload;
    var ticket, answer := s.Now().ticket, s.Poll(o.wait);
    if ticket != 0 && answer.Some? {
      DoGood(Linux, s, Observe(ticket, answer.value));
      ReloadGood(s.Do(Observe(ticket, answer.value)), answer.value, o.afterPoll, daily);
    }
  }

  lemma BeginGood(s: System, launches: bool, load: Load, daily: bool)
    requires s.Known() && Safe(Linux, s.trace) && s.Now().ticket == 0
    requires s.Now().pending ==> daily
    ensures var r := Begin(s, launches, load, daily);
            r.Known() && r.trace != [] && Safe(Linux, r.trace) && (r.Now().pending ==> s.Now().pending && !launches)
  {
    hide After, Safe;
    DoGood(Linux, s, Close);
    var closed := s.Do(Close);
    if launches {
      LaunchGood(Linux, closed);
      DoGood(Linux, closed.Launched(), Noted(Attempt));
    } else {
      DoGood(Linux, closed, Open(false));
    }
  }

  lemma StartGood(s: System, r: WorkerArguments.Request, o: Outcomes, daily: bool)
    requires Good(Linux, s)
    ensures Good(Linux, Start(s, r, o, daily))
  {
    hide After, Safe, Begin, PollAndReload, WorkerArguments.Valid;
    PollAndReloadGood(s, o, daily);
    PolledHasNoTicket(s, o, daily);
    if !Refused(s, o) {
      BeginGood(PollAndReload(s, o, daily), WorkerArguments.Valid(r) && o.launches, o.afterLaunch, daily);
    }
  }

  lemma TickGood(s: System, o: Outcomes, daily: bool, due: bool)
    requires Good(Linux, s)
    ensures Good(Linux, Tick(s, o, daily, due))
  {
    hide After, Safe, Begin, PollAndReload;
    PollAndReloadGood(s, o, daily);
    var p := PollAndReload(s, o, daily);
    if RefreshDue(p, daily, due) {
      DoGood(Linux, p, Scheduled);
      BeginGood(p.Do(Scheduled), o.launches, o.afterLaunch, true);
      var b := Begin(p.Do(Scheduled), o.launches, o.afterLaunch, true);
      if !o.launches {
        DoGood(Linux, b, Noted(Failure));
      }
    }
  }

  /** The one event that breaks ownership: a row is toggled while a worker is tracked
      and the client can load. */
  predicate Breaks(w: Window, e: Event) {
    && e.ToggleRow?
    && e.row < w.rows
    && e.load.works
    && w.system.Now().ticket != 0
  }

  lemma HandleGood(w: Window, e: Event, daily: bool)
    requires Good(Linux, w.system)
    ensures Safe(Linux, Handle(w, e, daily).system.trace) <==> !Breaks(w, e)
    ensures !Breaks(w, e) ==> Good(Linux, Handle(w, e, daily).system)
  {
    hide After, Safe, Tick, Start, Allowed;
    match e
    case TimerTick(o, due, _, _) => TickGood(w.system, o, daily, due);
    case IndexCommand(r, o, _) => StartGood(w.system, r, o, daily);
    case Typed(_, _) =>
    case WorkerExit(pid, code) =>
      ExitGood(Linux, w.system, pid, code);
    case ToggleRow(row, load, found) =>
      ToggleGood(w, row, load, found);
  }

  lemma ToggleGood(w: Window, row: nat, load: Load, found: nat)
    requires Good(Linux, w.system)
    ensures var broken := row < w.rows && load.works && w.system.Now().ticket != 0;
            && (Safe(Linux, ToggleWindow(w, row, load, found).system.trace) <==> !broken)
            && (!broken ==> Good(Linux, ToggleWindow(w, row, load, found).system))
  {
    hide After, Safe;
    if w.system.Now().ticket == 0 {
      EnsureReadyGood(w.system, load);
    } else {
      TicketExcludes(Linux, w.system.trace);
      SafeOne(Linux, w.system.trace, Open(false));
    }
  }

  // ----- Whole runs -----

  ghost predicate NeverBreaks(events: seq<Event>, daily: bool) {
    forall i | 0 <= i < |events| :: !Breaks(Run(events[..i], daily), events[i])
  }

  lemma ReloadGrows(s: System, code: int, load: Load, daily: bool)
    ensures s.trace <= Reload(s, code, load, daily).trace
  {
    hide After;
  }

  lemma PollGrows(s: System, o: Outcomes, daily: bool)
    ensures s.trace <= PollAndReload(s, o, daily).trace
  {
    hide After, Reload;
    var ticket, answer := s.Now().ticket, s.Poll(o.wait);
    if ticket != 0 && answer.Some? {
      ReloadGrows(s.Do(Observe(ticket, answer.value)), answer.value, o.afterPoll, daily);
    }
  }

  lemma BeginGrows(s: System, launches: bool, load: Load, daily: bool)
    ensures s.trace <= Begin(s, launches, load, daily).trace
  {
    hide After;
  }

  lemma TraceGrows(w: Window, e: Event, daily: bool)
    ensures w.system.trace <= Handle(w, e, daily).system.trace
  {
    hide After, WorkerArguments.Valid, PollAndReload, Begin, Rows, RowsAfterPoll;
    var s := w.system;
    match e
    case TimerTick(o, due, _, _) =>
      PollGrows(s, o, daily);
      BeginGrows(PollAndReload(s, o, daily).Do(Scheduled), o.launches, o.afterLaunch, true);
    case IndexCommand(r, o, _) =>
      PollGrows(s, o, daily);
      BeginGrows(PollAndReload(s, o, daily), WorkerArguments.Valid(r) && o.launches, o.afterLaunch, daily);
    case _ =>
  }

  lemma NeverBreaksOne(front: seq<Event>, e: Event, daily: bool)
    ensures NeverBreaks(front + [e], daily) <==> NeverBreaks(front, daily) && !Breaks(Run(front, daily), e)
  {
    hide Run, Breaks;
    var events := front + [e];
    assert forall i | 0 <= i < |front| :: events[..i] == front[..i] && events[i] == front[i];
    assert events[..|front|] == front && events[|front|] == e;
  }

  lemma RunOne(front: seq<Event>, e: Event, daily: bool)
    ensures Run(front + [e], daily) == Handle(Run(front, daily), e, daily)
  {
    hide Handle;
    assert (front + [e])[..|front + [e]| - 1] == front;
  }

  lemma SafeBefore(t: seq<Action>, u: seq<Action>)
    requires t <= u && Safe(Linux, u)
    ensures Safe(Linux, t)
  {
    hide Safe;
    SafePrefix(Linux, u, |t|);
    assert u[..|t|] == t;
  }

  /** A run obeys the rules at every action exactly when no row is ever toggled while a
      worker is tracked and the client can load. */
  lemma {:induction false} RunSafeIff(events: seq<Event>, daily: bool)
    ensures Safe(Linux, Run(events, daily).system.trace) <==> NeverBreaks(events, daily)
    ensures NeverBreaks(events, daily) ==> Good(Linux, Run(events, daily).system)
  {
    hide After, Safe, Handle, Breaks, Run, Good, NeverBreaks;
    if events == [] {
      RunNothing(daily);
      StartedGood(Linux);
    } else {
      var front, e := events[..|events| - 1], events[|events| - 1];
      assert events == front + [e];
      RunSafeIff(front, daily);
      NeverBreaksOne(front, e, daily);
      RunOne(front, e, daily);
      var w := Run(front, daily);
      TraceGrows(w, e, daily);
      if Safe(Linux, Handle(w, e, daily).system.trace) {
        SafeBefore(w.system.trace, Handle(w, e, daily).system.trace);
      }
      if NeverBreaks(front, daily) {
        HandleGood(w, e, daily);
      }
    }
  }

  /** At every point of such a run: the runtime is unloaded while the ticket is valid. */
  lemma RunIsExclusive(events: seq<Event>, daily: bool, n: nat)
    requires NeverBreaks(events, daily) && n <= |Run(events, daily).system.trace|
    ensures var w := After(Run(events, daily).system.trace[..n]);
            w.ticket != 0 ==> w.handle == NoHandle
  {
    hide Run, Safe, After, NeverBreaks;
    RunSafeIff(events, daily);
    SafePrefix(Linux, Run(events, daily).system.trace, n);
    TicketExcludes(Linux, Run(events, daily).system.trace[..n]);
  }

  /** Rows that can be toggled while a worker is tracked come from a folder picker. */
  lemma {:induction false} RowsBesideWorkerArePicked(events: seq<Event>, daily: bool)
    requires NeverBreaks(events, daily)
    ensures var w := Run(events, daily);
            w.system.Now().ticket != 0 && w.rows > 0 ==> w.query == Picker
  {
    hide After, Safe, Handle, Breaks;
    if events == [] {
      assert OPENED.rows == 0;
    } else {
      var front, e := events[..|events| - 1], events[|events| - 1];
      assert events == front + [e];
      NeverBreaksOne(front, e, daily);
      RowsBesideWorkerArePicked(front, daily);
      RunSafeIff(front, daily);
      RunSafeIff(events, daily);
      RowsStayPicked(Run(front, daily), e, daily);
    }
  }

  lemma RowsStayPicked(w: Window, e: Event, daily: bool)
    requires Good(Linux, w.system) && Good(Linux, Handle(w, e, daily).system)
    requires w.system.Now().ticket != 0 && w.rows > 0 ==> w.query == Picker
    ensures var r := Handle(w, e, daily);
            r.system.Now().ticket != 0 && r.rows > 0 ==> r.query == Picker
  {
    hide After, Safe, Begin, Reload, WorkerArguments.Valid;
    var r := Handle(w, e, daily);
    TicketExcludes(Linux, w.system.trace);
    TicketExcludes(Linux, r.system.trace);
    match e
    case TimerTick(o, due, _, _) =>
      TicketExcludes(Linux, PollAndReload(w.system, o, daily).trace) by {
        PollAndReloadGood(w.system, o, daily);
      }
      PolledHasNoTicket(w.system, o, daily);
    case IndexCommand(_, _, _) =>
    case Typed(_, _) =>
    case ToggleRow(_, _, _) =>
    case WorkerExit(pid, code) =>
      ExitKeepsKnown(w.system, pid, code);
  }

  // ----- What every event leads to -----

  /** The events that ask about the tracked process, with what they meet on the way. */
  predicate Asks(e: Event, o: Outcomes) {
    match e
    case TimerTick(outcomes, _, _, _) => o == outcomes
    case IndexCommand(_, outcomes, _) => o == outcomes
    case _ => false
  }

  /** The actions that follow an observed end. */
  lemma EndedWorkerIsReloaded(s: System, o: Outcomes, code: int, daily: bool)
    requires s.Known() && Seen(s, o.wait, code)
    ensures var loaded := s.Now().handle != NoHandle;
            PollAndReload(s, o, daily).trace
            == s.trace + [Observe(s.Now().ticket, code)]
            + (if !loaded && o.afterPoll.works then [Open(false)] else [])
            + (if daily && (loaded || o.afterPoll.works) then
                 [Noted(if code == 0 && o.afterPoll.clean then Success else Failure)]
               else [])
    ensures PollAndReload(s, o, daily).Now().handle
            == if s.Now().handle == NoHandle && o.afterPoll.works then Writable else s.Now().handle
    ensures PollAndReload(s, o, daily).Now().ticket == 0 && PollAndReload(s, o, daily).processes == s.processes
  {
    hide After;
    SeenIffPolled(s, o.wait, code);
    var seen := s.Do(Observe(s.Now().ticket, code));
    AfterOne(s.trace, Observe(s.Now().ticket, code));
    AfterOne(seen.trace, Open(false));
    var ready := EnsureReady(seen, o.afterPoll);
    AfterOne(ready.trace, Noted(Success));
    AfterOne(ready.trace, Noted(Failure));
  }

  lemma PollsFirst(w: Window, e: Event, o: Outcomes, daily: bool)
    requires w.system.Known() && Asks(e, o) && w.system.Now().ticket != 0
    ensures PollAndReload(w.system, o, daily).trace <= Handle(w, e, daily).system.trace
    ensures StillRuns(w.system, o.wait) ==> Handle(w, e, daily).system == w.system
  {
    hide After, Reload, WorkerArguments.Valid, Rows, RowsAfterPoll;
    SeenIffPolled(w.system, o.wait, 0);
  }

  /** In runs that obey the rules: exit code 0 and a clean load are followed at once by the
      record of a success, and anything else by the record of a failure, or by no handle
      when loading fails. */
  lemma EndIsHandled(events: seq<Event>, e: Event, o: Outcomes, code: int, daily: bool)
    requires NeverBreaks(events, daily) && Asks(e, o) && Seen(Run(events, daily).system, o.wait, code)
    ensures var s := Run(events, daily).system;
            var seen := s.trace + [Observe(s.Now().ticket, code)];
            var t := Run(events + [e], daily).system.trace;
            && seen <= t
            && (o.afterPoll.works ==> seen + [Open(false)] <= t)
            && (daily && o.afterPoll.works && o.afterPoll.clean && code == 0 ==> seen + [Open(false), Noted(Success)] <= t)
            && (daily && o.afterPoll.works && !(o.afterPoll.clean && code == 0) ==> seen + [Open(false), Noted(Failure)] <= t)
  {
    hide Run, After, Handle, PollAndReload, Safe, Seen, Asks, NeverBreaks;
    RunSafeIff(events, daily);
    var s := Run(events, daily).system;
    assert s.Now().ticket != 0 by {
      SeenIffPolled(s, o.wait, code);
    }
    TicketExcludes(Linux, s.trace);
    EndedWorkerIsReloaded(s, o, code, daily);
    PollsFirst(Run(events, daily), e, o, daily);
    RunOne(events, e, daily);
  }

  /** What a start does when no worker is tracked: the runtime is unloaded first, and loaded
      again when the worker could not be started. */
  lemma BeginActs(s: System, launches: bool, load: Load, daily: bool)
    ensures var b := Begin(s, launches, load, daily);
            b.trace == s.trace
            + (if !launches then (if load.works then [Close, Open(false)] else [Close])
               else if daily then [Close, Launch(|s.processes| + 1), Noted(Attempt)]
               else [Close, Launch(|s.processes| + 1)])
            && b.processes == if launches then s.processes + [Running] else s.processes
  {
    hide After;
  }

  /** What a start begins with when no worker runs, or once its end has been handled. */
  lemma PolledIsIdle(s: System, o: Outcomes, daily: bool)
    requires s.Known() && !StillRuns(s, o.wait)
    ensures PollAndReload(s, o, daily).Now().ticket == 0 && PollAndReload(s, o, daily).processes == s.processes
    ensures !Refused(s, o)
  {
    hide After;
    SeenIffPolled(s, o.wait, 0);
    PolledHasNoTicket(s, o, daily);
  }

  /** Unless a worker runs, a request starts one, or loads the runtime again; the rows are
      gone either way. */
  lemma RequestStarts(w: Window, e: Event, o: Outcomes, daily: bool)
    requires w.system.Known() && e.IndexCommand? && o == e.outcomes && !StillRuns(w.system, o.wait)
    ensures var starts, r := o.launches && WorkerArguments.Valid(e.request), Handle(w, e, daily);
            r.system.trace == PollAndReload(w.system, o, daily).trace
            + (if !starts then (if o.afterLaunch.works then [Close, Open(false)] else [Close])
               else if daily then [Close, Launch(|w.system.processes| + 1), Noted(Attempt)]
               else [Close, Launch(|w.system.processes| + 1)])
            && r.system.processes == (if starts then w.system.processes + [Running] else w.system.processes)
            && r.rows == 0 && r.query == if starts then Ordinary else w.query
  {
    hide After, Begin, PollAndReload, WorkerArguments.Valid, Refused;
    PolledIsIdle(w.system, o, daily);
    BeginActs(PollAndReload(w.system, o, daily), o.launches && WorkerArguments.Valid(e.request), o.afterLaunch, daily);
  }

  /** Unless a worker runs, a tick starts the refresh exactly when it is due and the runtime
      is loaded. */
  lemma TickActs(w: Window, e: Event, o: Outcomes, daily: bool)
    requires w.system.Known() && e.TimerTick? && o == e.outcomes && !StillRuns(w.system, o.wait)
    ensures var polled, r := PollAndReload(w.system, o, daily), Handle(w, e, daily);
            if daily && e.due && polled.Now().handle != NoHandle then
              r.rows == 0 &&
              r.system.trace == polled.trace
              + (if o.launches then [Scheduled, Close, Launch(|w.system.processes| + 1), Noted(Attempt)]
                 else if o.afterLaunch.works then [Scheduled, Close, Open(false), Noted(Failure)]
                 else [Scheduled, Close, Noted(Failure)])
            else r.system.trace == polled.trace
  {
    hide After, Begin, PollAndReload, Rows, RowsAfterPoll;
    PolledIsIdle(w.system, o, daily);
    BeginActs(PollAndReload(w.system, o, daily).Do(Scheduled), o.launches, o.afterLaunch, true);
  }

  /** The rows after a tick that starts nothing: what the box asks for is looked up again
      after the end of a worker and when the index has changed, if the runtime is loaded. */
  lemma TickShows(w: Window, e: Event, o: Outcomes, code: int, daily: bool)
    requires w.system.Known() && e.TimerTick? && o == e.outcomes && !e.due
    ensures var r, polled := Handle(w, e, daily), PollAndReload(w.system, o, daily);
            && r.query == w.query
            && (polled.Now().handle == NoHandle ==> r.rows == w.rows)
            && (polled.Now().handle != NoHandle && (Seen(w.system, o.wait, code) || e.changed)
                ==> r.rows == if w.query == WithoutRows then 0 else e.found)
            && (w.system.Now().ticket == 0 && !e.changed ==> r.rows == w.rows)
            && (StillRuns(w.system, o.wait) && !e.changed ==> r.rows == w.rows)
  {
    hide After, PollAndReload;
    SeenIffPolled(w.system, o.wait, code);
  }

  // ----- Waits that lose the worker -----

  lemma TruthfulReload(s: System, code: int, load: Load, daily: bool)
    ensures Truthful(Reload(s, code, load, daily).trace) <==> Truthful(s.trace)
  {
    hide Truthful, After;
    TruthfulOne(s.trace, Open(false));
    TruthfulOne(EnsureReady(s, load).trace, Noted(if code == 0 && load.clean then Success else Failure));
  }

  lemma TruthfulPoll(s: System, o: Outcomes, daily: bool)
    requires s.Known()
    ensures Truthful(PollAndReload(s, o, daily).trace) <==> Truthful(s.trace) && !LosesTracked(s, o.wait)
  {
    hide Truthful, After, Reload;
    var ticket, answer := s.Now().ticket, s.Poll(o.wait);
    if ticket != 0 && answer.Some? {
      TruthfulOne(s.trace, Observe(ticket, answer.value));
      TruthfulReload(s.Do(Observe(ticket, answer.value)), answer.value, o.afterPoll, daily);
    }
  }

  lemma TruthfulBegin(s: System, launches: bool, load: Load, daily: bool)
    ensures Truthful(Begin(s, launches, load, daily).trace) <==> Truthful(s.trace)
  {
    hide Truthful, After;
    TruthfulOne(s.trace, Close);
    var closed := s.Do(Close);
    TruthfulOne(closed.trace, Open(false));
    TruthfulOne(closed.trace, Launch(|s.processes| + 1));
    TruthfulOne(closed.Launched().trace, Noted(Attempt));
  }

  predicate LosesWorker(s: System, e: Event) {
    match e
    case TimerTick(o, _, _, _) => LosesTracked(s, o.wait)
    case IndexCommand(_, o, _) => LosesTracked(s, o.wait)
    case _ => false
  }

  lemma TruthfulHandle(w: Window, e: Event, daily: bool)
    requires w.system.Known()
    ensures Truthful(Handle(w, e, daily).system.trace) <==> Truthful(w.system.trace) && !LosesWorker(w.system, e)
  {
    hide Truthful, After, PollAndReload, Begin, LosesTracked, Rows, RowsAfterPoll, WorkerArguments.Valid;
    var s := w.system;
    match e
    case TimerTick(o, due, _, _) =>
      TruthfulPoll(s, o, daily);
      var p := PollAndReload(s, o, daily);
      TruthfulOne(p.trace, Scheduled);
      TruthfulBegin(p.Do(Scheduled), o.launches, o.afterLaunch, true);
      TruthfulOne(Begin(p.Do(Scheduled), o.launches, o.afterLaunch, true).trace, Noted(Failure));
    case IndexCommand(r, o, _) =>
      TruthfulPoll(s, o, daily);
      TruthfulBegin(PollAndReload(s, o, daily), WorkerArguments.Valid(r) && o.launches, o.afterLaunch, daily);
      RefusedLosesNothing(s, o);
    case Typed(_, _) =>
    case ToggleRow(_, _, _) =>
      TruthfulOne(s.trace, Open(false));
    case WorkerExit(pid, code) =>
      TruthfulOne(s.trace, Exit(pid, code));
  }

  lemma RefusedLosesNothing(s: System, o: Outcomes)
    ensures Refused(s, o) ==> !LosesTracked(s, o.wait)
  {
    hide After;
  }

  ghost predicate NeverLoses(events: seq<Event>, daily: bool) {
    forall i | 0 <= i < |events| :: !LosesWorker(Run(events[..i], daily).system, events[i])
  }

  lemma NeverLosesOne(front: seq<Event>, e: Event, daily: bool)
    ensures NeverLoses(front + [e], daily) <==> NeverLoses(front, daily) && !LosesWorker(Run(front, daily).system, e)
  {
    hide Run, LosesWorker;
    var events := front + [e];
    assert forall i | 0 <= i < |front| :: events[..i] == front[..i] && events[i] == front[i];
    assert events[..|front|] == front && events[|front|] == e;
  }

  lemma {:induction false} TruthfulRun(events: seq<Event>, daily: bool)
    requires NeverBreaks(events, daily)
    ensures Truthful(Run(events, daily).system.trace) <==> NeverLoses(events, daily)
  {
    hide Truthful, After, Handle, NeverLoses, LosesWorker, NeverBreaks, Breaks, Run;
    if events == [] {
      RunNothing(daily);
      TruthfulStarted(daily);
    } else {
      var front, e := events[..|events| - 1], events[|events| - 1];
      assert events == front + [e];
      NeverBreaksOne(front, e, daily);
      TruthfulRun(front, daily);
      RunSafeIff(front, daily);
      NeverLosesOne(front, e, daily);
      RunOne(front, e, daily);
      TruthfulHandle(Run(front, daily), e, daily);
    }
  }

  lemma TruthfulStarted(daily: bool)
    ensures Truthful(STARTED.trace) && NeverLoses([], daily)
  {
  }

  /** In such a run, no process but the tracked one ever runs, and none while the runtime
      is loaded, exactly when no event takes the tracked process for ended while it runs. */
  lemma NoWorkerIsLostIff(events: seq<Event>, daily: bool)
    requires NeverBreaks(events, daily)
    ensures var t := Run(events, daily).system.trace;
            (forall n: nat | n <= |t| :: Exclusive(Linux, After(t[..n]))) <==> NeverLoses(events, daily)
  {
    hide Run, Truthful, Safe, Exclusive, After, NeverLoses, NeverBreaks;
    RunSafeIff(events, daily);
    TruthfulRun(events, daily);
    ExclusiveIffTruthful(Linux, Run(events, daily).system.trace);
  }

  // ----- The event that breaks the rule -----

  /** A folder picker is opened beside a running worker and one of its rows is pinned. */
  function PinBesideWorker(ok: Outcomes): seq<Event> {
    [IndexCommand(REINDEX, ok, 0), Typed(Picker, 1), ToggleRow(0, Load(true, true), 1)]
  }

  /** The frontend then holds a writable runtime while the worker it started runs. */
  lemma TogglesCanBreakOwnership(ok: Outcomes)
    requires ok.launches
    ensures var w := Run(PinBesideWorker(ok), false).system.Now();
            w.handle == Writable && w.ticket == 1 && w.running == {1}
  {
    hide Run, After;
    var e := PinBesideWorker(ok);
    var s0 := OPENED.system;
    StartedGood(Linux);
    AfterOne(s0.trace, Close);
    var s1 := s0.Do(Close).Launched();
    AfterOne(s0.Do(Close).trace, Launch(1));
    AfterOne(s1.trace, Open(false));
    assert Handle(OPENED, e[0], false) == Window(s1, Ordinary, 0);
    assert Handle(Window(s1, Ordinary, 0), e[1], false) == Window(s1, Picker, 1);
    assert Handle(Window(s1, Picker, 1), e[2], false).system == s1.Do(Open(false));
    RunSteps(e);
    assert {} + {1} == {1};
  }

  lemma RunSteps(e: seq<Event>)
    requires |e| == 3
    ensures Run(e, false) == Handle(Handle(Handle(OPENED, e[0], false), e[1], false), e[2], false)
  {
    hide Handle, Run;
    RunOne(e[..0], e[0], false);
    RunOne(e[..1], e[1], false);
    RunOne(e[..2], e[2], false);
    assert e[..0] + [e[0]] == e[..1] && e[..1] + [e[1]] == e[..2] && e[..2] + [e[2]] == e;
    RunNothing(false);
  }

  lemma RunNothing(daily: bool)
    ensures Run([], daily) == OPENED && NeverBreaks([], daily)
  {
  }
}
