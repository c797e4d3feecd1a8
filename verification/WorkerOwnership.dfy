/** Who may hold the persistent index: the frontend's runtime handle, or a worker process.

    Everything that matters happens as an action, and a run is the sequence of its
    actions, so that the rules hold at every point and not only between events.
  */
module WorkerOwnership {

  import opened Results

  datatype Handle = NoHandle | ReadOnly | Writable

  datatype Note = Attempt | Success | Failure

  datatype Action =
    | Open(readOnly: bool)
    | Close
    | Launch(pid: nat)
    | Observe(pid: nat, code: int)
    | Abandon
    | Exit(pid: nat, code: int)
    | Scheduled
    | Noted(note: Note)

  /** `ticket` is the tracked process, 0 for none; `pending` is a scheduled refresh of
      which nothing has been recorded yet. */
  datatype World = World(handle: Handle, ticket: nat, running: set<nat>, pending: bool)

  function Apply(w: World, a: Action): World {
    match a
    case Open(readOnly) => w.(handle := if readOnly then ReadOnly else Writable)
    case Close => w.(handle := NoHandle)
    case Launch(pid) => w.(ticket := pid, running := w.running + {pid})
    case Observe(_, _) => w.(ticket := 0)
    case Abandon => w.(ticket := 0)
    case Exit(pid, _) => w.(running := w.running - {pid})
    case Scheduled => w.(pending := true)
    case Noted(_) => w.(pending := false)
  }

  const NOTHING := World(NoHandle, 0, {}, false)

  function After(t: seq<Action>): World {
    if t == [] then NOTHING else Apply(After(t[..|t| - 1]), t[|t| - 1])
  }

  lemma AfterOne(t: seq<Action>, a: Action)
    ensures After(t + [a]) == Apply(After(t), a)
  {
    assert (t + [a])[..|t + [a]| - 1] == t;
  }

  datatype Process = Running | Exited(code: int)

  type Code = n: int | n != 0 witness 1

  /** Asking about a process works, or fails with a code. */
  datatype Wait = Works | Fails(code: Code)

  /** What loading a runtime gives; `clean` is an idle runtime without an error. */
  datatype Load = Load(works: bool, clean: bool)

  datatype Outcomes = Outcomes(wait: Wait, launches: bool, afterPoll: Load, afterLaunch: Load)

  /** The run so far and the processes started in it; process p has number p. */
  datatype System = System(trace: seq<Action>, processes: seq<Process>) {
    function Now(): World {
      After(trace)
    }

    function Do(a: Action): System {
      this.(trace := trace + [a])
    }

    function DoIf(c: bool, a: Action): System {
      if c then Do(a) else this
    }

    /** None while the tracked process runs, its exit code otherwise. */
    function Poll(wait: Wait): Option<int> {
      var ticket := Now().ticket;
      if ticket == 0 || ticket > |processes| then Some(0)
      else if wait.Fails? then Some(wait.code)
      else if processes[ticket - 1].Running? then None
      else Some(processes[ticket - 1].code)
    }

    function Launched(): System {
      System(trace + [Launch(|processes| + 1)], processes + [Running])
    }

    /** A process ends on its own, which nobody sees before asking. */
    function Exits(pid: nat, code: int): System {
      if 0 < pid <= |processes| && processes[pid - 1].Running? then
        System(trace + [Exit(pid, code)], processes[pid - 1 := Exited(code)])
      else this
    }

    /** The action record agrees with the process table. */
    ghost predicate Known() {
      && Now().ticket <= |processes|
      && forall p :: p in Now().running <==> 0 < p <= |processes| && processes[p - 1].Running?
    }
  }

  lemma LaunchKeepsKnown(s: System)
    requires s.Known()
    ensures s.Launched().Known()
  {
    hide After;
    AfterOne(s.trace, Launch(|s.processes| + 1));
  }

  lemma ExitKeepsKnown(s: System, pid: nat, code: int)
    requires s.Known()
    ensures s.Exits(pid, code).Known() && s.Exits(pid, code).Now().ticket == s.Now().ticket
    ensures s.Exits(pid, code).Now().handle == s.Now().handle
  {
    hide After;
    AfterOne(s.trace, Exit(pid, code));
  }

  lemma DoKeepsKnown(s: System, a: Action)
    requires s.Known() && !a.Launch? && !a.Exit?
    ensures s.Do(a).Known()
  {
    hide After;
    AfterOne(s.trace, a);
  }

  /** The ticket, and the processes behind it. */
  class Desktop {
    var ticket: nat
    var processes: seq<Process>
    ghost var trace: seq<Action>

    ghost function Run(): System
      reads this
    {
      System(trace, processes)
    }

    ghost predicate Valid()
      reads this
    {
      Run().Known() && ticket == After(trace).ticket
    }

    constructor ()
      ensures Valid() && Run() == System([], [])
    {
      ticket, processes, trace := 0, [], [];
    }

    ghost method Record(a: Action)
      requires Valid() && (a.Open? || a.Close? || a.Scheduled? || a.Noted?)
      modifies this`trace
      ensures Valid() && Run() == old(Run()).Do(a)
    {
      hide After;
      DoKeepsKnown(Run(), a);
      AfterOne(trace, a);
      trace := trace + [a];
    }

    /** The answer is None while the worker runs; otherwise the ticket is gone. */
    method Poll(wait: Wait) returns (answer: Option<int>)
      requires Valid()
      modifies this
      ensures Valid() && answer == old(Run()).Poll(wait)
      ensures Run() == old(Run()).DoIf(answer.Some? && old(ticket) != 0, Observe(old(ticket), if answer.Some? then answer.value else 0))
    {
      hide After;
      if ticket == 0 {
        return Some(0);
      }
      var code: int;
      match wait {
        case Works =>
          if processes[ticket - 1].Running? {
            return None;
          }
          code := processes[ticket - 1].code;
        case Fails(c) =>
          code := c;
      }
      DoKeepsKnown(Run(), Observe(ticket, code));
      AfterOne(trace, Observe(ticket, code));
      trace := trace + [Observe(ticket, code)];
      ticket := 0;
      answer := Some(code);
    }

    /** Starting a worker; an earlier ticket would be given up first. */
    method LaunchTracked(works: bool)
      requires Valid()
      modifies this
      ensures Valid()
      ensures Run() == var s := old(Run()).DoIf(old(ticket) != 0, Abandon); if works then s.Launched() else s
    {
      hide After;
      CloseTicket();
      if works {
        LaunchKeepsKnown(Run());
        AfterOne(trace, Launch(|processes| + 1));
        trace := trace + [Launch(|processes| + 1)];
        processes := processes + [Running];
        ticket := |processes|;
      }
    }

    method CloseTicket()
      requires Valid()
      modifies this
      ensures Valid() && Run() == old(Run()).DoIf(old(ticket) != 0, Abandon) && ticket == 0
    {
      hide After;
      if ticket != 0 {
        DoKeepsKnown(Run(), Abandon);
        AfterOne(trace, Abandon);
        trace := trace + [Abandon];
        ticket := 0;
      }
    }

    method WorkerExits(pid: nat, code: int)
      requires Valid()
      modifies this
      ensures Valid() && Run() == old(Run()).Exits(pid, code)
    {
      hide After;
      ExitKeepsKnown(Run(), pid, code);
      if 0 < pid <= |processes| && processes[pid - 1].Running? {
        trace := trace + [Exit(pid, code)];
        processes := processes[pid - 1 := Exited(code)];
      }
    }
  }

  // ----- Observations that are true -----

  /** A process that was observed to have ended had ended. */
  ghost predicate Truthful(t: seq<Action>) {
    t == [] ||
    (Truthful(t[..|t| - 1]) && (t[|t| - 1].Observe? ==> t[|t| - 1].pid !in After(t[..|t| - 1]).running))
  }

  /** Workers start only when none is tracked and no handle is open, tickets are not
      given up, and what is observed is the tracked process. */
  ghost predicate Careful(t: seq<Action>) {
    t == [] ||
    var before, a := t[..|t| - 1], t[|t| - 1];
    && Careful(before)
    && !a.Abandon?
    && (a.Launch? ==> After(before).ticket == 0 && After(before).handle == NoHandle && a.pid > 0)
    && (a.Observe? ==> a.pid == After(before).ticket)
  }

  /** If observations are true, no process but the tracked one ever runs. */
  lemma {:induction false} OnlyTheTrackedRuns(t: seq<Action>)
    requires Careful(t) && Truthful(t)
    ensures forall p :: p in After(t).running ==> p == After(t).ticket != 0
  {
    if t != [] {
      OnlyTheTrackedRuns(t[..|t| - 1]);
    }
  }

  ghost predicate OnlyTracked(w: World) {
    forall p :: p in w.running ==> p == w.ticket != 0
  }

  lemma {:induction false} OnlyTrackedMeansTruthful(t: seq<Action>)
    requires forall n: nat | n <= |t| :: OnlyTracked(After(t[..n]))
    ensures Truthful(t)
  {
    hide After;
    if t != [] {
      var front, a := t[..|t| - 1], t[|t| - 1];
      forall n: nat | n <= |front|
        ensures OnlyTracked(After(front[..n]))
      {
        assert front[..n] == t[..n];
      }
      OnlyTrackedMeansTruthful(front);
      AfterOne(front, a);
      assert t == front + [a] && t[..|t|] == t;
      assert OnlyTracked(After(t[..|t|]));
    }
  }

  /** And only then: at every point no process but the tracked one runs exactly when every
      observation is true. */
  lemma OnlyTrackedIffTruthful(t: seq<Action>)
    requires Careful(t)
    ensures (forall n: nat | n <= |t| :: OnlyTracked(After(t[..n]))) <==> Truthful(t)
  {
    hide After, Careful, Truthful;
    if Truthful(t) {
      forall n: nat | n <= |t|
        ensures OnlyTracked(After(t[..n]))
      {
        PrefixIsCareful(t, n);
        OnlyTheTrackedRuns(t[..n]);
      }
    }
    if forall n: nat | n <= |t| :: OnlyTracked(After(t[..n])) {
      OnlyTrackedMeansTruthful(t);
    }
  }

  lemma TruthfulOne(t: seq<Action>, a: Action)
    ensures Truthful(t + [a]) <==> Truthful(t) && (a.Observe? ==> a.pid !in After(t).running)
  {
    hide After;
    assert (t + [a])[..|t + [a]| - 1] == t;
  }

  /** A failed wait takes the tracked process for ended although it still runs. */
  predicate LosesTracked(s: System, wait: Wait) {
    wait.Fails? && s.Now().ticket != 0 && s.Now().ticket in s.Now().running
  }

  lemma {:induction false} PrefixIsCareful(t: seq<Action>, n: nat)
    requires n <= |t|
    ensures Careful(t) ==> Careful(t[..n])
    ensures Truthful(t) ==> Truthful(t[..n])
    decreases |t|
  {
    hide After;
    if n == |t| {
      assert t[..n] == t;
    } else {
      var front := t[..|t| - 1];
      assert front[..n] == t[..n];
      PrefixIsCareful(front, n);
    }
  }

  /** Asking about the tracked process gives `code`: the wait failed with it, or the process
      ended with it. */
  predicate Seen(s: System, wait: Wait, code: int) {
    && s.Now().ticket != 0
    && match wait
       case Fails(c) => c == code
       case Works => s.Now().ticket <= |s.processes| && s.processes[s.Now().ticket - 1] == Exited(code)
  }

  predicate StillRuns(s: System, wait: Wait) {
    wait == Works && 0 < s.Now().ticket <= |s.processes| && s.processes[s.Now().ticket - 1] == Running
  }

  lemma SeenIffPolled(s: System, wait: Wait, code: int)
    requires s.Known()
    ensures Seen(s, wait, code) <==> s.Now().ticket != 0 && s.Poll(wait) == Some(code)
    ensures StillRuns(s, wait) <==> s.Now().ticket != 0 && s.Poll(wait).None?
  {
    hide After;
  }

  // ----- Rules for every action -----

  datatype Platform = Windows | Linux

  ghost predicate EndsWith(t: seq<Action>, a: Action) {
    t != [] && t[|t| - 1] == a
  }

  /** On Windows: the exit code 0 was observed and the handle closed since. */
  ghost predicate WorkerSucceeded(t: seq<Action>) {
    EndsWith(t, Close) && |t| > 1 && t[|t| - 2].Observe? && t[|t| - 2].code == 0
  }

  /** On Linux: the last thing seen of a worker, at most one loading ago, was exit code 0. */
  ghost predicate SawSuccess(t: seq<Action>) {
    || (t != [] && t[|t| - 1].Observe? && t[|t| - 1].code == 0)
    || (|t| > 1 && t[|t| - 1].Open? && t[|t| - 2].Observe? && t[|t| - 2].code == 0)
  }

  /** What may happen after `before`.  On Linux nothing is opened beside a worker; on
      Windows a reader may be, and a writable handle follows a success. */
  ghost predicate Allowed(p: Platform, before: seq<Action>, a: Action) {
    match a
    case Open(readOnly) =>
      if p.Linux? then After(before).ticket == 0
      else readOnly || before == [] || (WorkerSucceeded(before) && After(before).ticket == 0)
    case Launch(pid) => pid > 0 && After(before).ticket == 0 && After(before).handle == NoHandle
    case Observe(pid, _) => pid == After(before).ticket
    case Abandon => false
    case Scheduled => !After(before).pending && After(before).ticket == 0
    case Noted(note) => note == Success ==> if p.Linux? then SawSuccess(before) else EndsWith(before, Open(false))
    case _ => true
  }

  ghost predicate Safe(p: Platform, t: seq<Action>) {
    t == [] || (Safe(p, t[..|t| - 1]) && Allowed(p, t[..|t| - 1], t[|t| - 1]))
  }

  lemma SafeOne(p: Platform, t: seq<Action>, a: Action)
    ensures Safe(p, t + [a]) <==> Safe(p, t) && Allowed(p, t, a)
  {
    hide Allowed;
    assert (t + [a])[..|t + [a]| - 1] == t;
  }

  lemma {:induction false} SafePrefix(p: Platform, t: seq<Action>, n: nat)
    requires Safe(p, t) && n <= |t|
    ensures Safe(p, t[..n]) && (n < |t| ==> Allowed(p, t[..n], t[n]))
    decreases |t|
  {
    hide Allowed;
    if n == |t| {
      assert t[..n] == t;
    } else if n < |t| - 1 {
      var front := t[..|t| - 1];
      assert front[..n] == t[..n];
      SafePrefix(p, front, n);
    }
  }

  lemma {:induction false} SafeIsCareful(p: Platform, t: seq<Action>)
    requires Safe(p, t)
    ensures Careful(t)
  {
    if t != [] {
      SafeIsCareful(p, t[..|t| - 1]);
    }
  }

  /** Between events: the rules were kept and every scheduled refresh was recorded. */
  ghost predicate Good(p: Platform, s: System) {
    s.Known() && s.trace != [] && Safe(p, s.trace) && !s.Now().pending
  }

  lemma DoGood(p: Platform, s: System, a: Action)
    requires s.Known() && Safe(p, s.trace) && Allowed(p, s.trace, a) && !a.Launch? && !a.Exit?
    ensures s.Do(a).Known() && s.Do(a).trace != [] && Safe(p, s.Do(a).trace) && s.Do(a).Now() == Apply(s.Now(), a)
    ensures EndsWith(s.Do(a).trace, a)
  {
    hide After, Allowed, Safe;
    DoKeepsKnown(s, a);
    SafeOne(p, s.trace, a);
    AfterOne(s.trace, a);
  }

  lemma LaunchGood(p: Platform, s: System)
    requires s.Known() && Safe(p, s.trace) && s.Now().ticket == 0 && s.Now().handle == NoHandle
    ensures var r := s.Launched();
            r.Known() && Safe(p, r.trace) && r.trace != [] && r.Now() == Apply(s.Now(), Launch(|s.processes| + 1))
  {
    hide After, Safe;
    LaunchKeepsKnown(s);
    SafeOne(p, s.trace, Launch(|s.processes| + 1));
    AfterOne(s.trace, Launch(|s.processes| + 1));
  }

  lemma ExitGood(p: Platform, s: System, pid: nat, code: int)
    requires Good(p, s)
    ensures Good(p, s.Exits(pid, code))
  {
    hide After, Safe;
    ExitKeepsKnown(s, pid, code);
    SafeOne(p, s.trace, Exit(pid, code));
    AfterOne(s.trace, Exit(pid, code));
  }

  /** Both frontends start with a writable handle and no worker. */
  const STARTED := System([Open(false)], [])

  lemma StartedGood(p: Platform)
    ensures Good(p, STARTED) && STARTED.Now() == World(Writable, 0, {}, false)
  {
    DoGood(p, System([], []), Open(false));
    assert [] + [Open(false)] == [Open(false)];
  }

  // ----- Exclusive ownership -----

  /** The handles a frontend must not hold beside a worker: writable ones on Windows, any
      on Linux. */
  predicate Blocked(p: Platform, handle: Handle) {
    if p.Windows? then handle == Writable else handle != NoHandle
  }

  /** Under the rules no such handle is held while a worker is tracked. */
  lemma {:induction false} TicketExcludes(p: Platform, t: seq<Action>)
    requires Safe(p, t)
    ensures After(t).ticket != 0 ==> !Blocked(p, After(t).handle)
  {
    if t != [] {
      TicketExcludes(p, t[..|t| - 1]);
    }
  }

  /** No process but the tracked one runs, and none beside such a handle. */
  ghost predicate Exclusive(p: Platform, w: World) {
    OnlyTracked(w) && (Blocked(p, w.handle) ==> w.running == {})
  }

  lemma ExclusiveIffTruthful(p: Platform, t: seq<Action>)
    requires Safe(p, t)
    ensures (forall n: nat | n <= |t| :: Exclusive(p, After(t[..n]))) <==> Truthful(t)
  {
    hide After, Safe, Truthful, Careful;
    SafeIsCareful(p, t);
    OnlyTrackedIffTruthful(t);
    forall n: nat | n <= |t| && OnlyTracked(After(t[..n]))
      ensures Exclusive(p, After(t[..n]))
    {
      SafePrefix(p, t, n);
      TicketExcludes(p, t[..n]);
    }
    if forall n: nat | n <= |t| :: Exclusive(p, After(t[..n])) {
      assert forall n: nat | n <= |t| :: OnlyTracked(After(t[..n]));
    }
  }
}
