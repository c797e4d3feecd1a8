/** The schedule of the daily index refresh, over every run of the program.

    Times are seconds in a signed 64-bit integer.  The clock is a parameter of every call.
  */
module DailyRefresh {

  import opened Results
  import opened Text

  const REFRESH_SECONDS := 24 * 60 * 60
  const RETRY_SECONDS := 60 * 60
  const INT64_LIMIT := 0x8000_0000_0000_0000

  type Time = t: int | -INT64_LIMIT <= t < INT64_LIMIT

  const MAGIC := "SUCH_DAILY_1"

  // ----- The state file -----

  function StateText(success: nat, attempt: nat): string {
    MAGIC + " " + Decimal(success) + " " + Decimal(attempt) + "\n"
  }

  function DigitsLength(s: string): (n: nat)
    ensures n <= |s| && forall c | c in s[..n] :: IsDigit(c)
  {
    if s == "" || !IsDigit(s[0]) then 0
    else
      var n := 1 + DigitsLength(s[1..]);
      assert s[..n] == [s[0]] + s[1..][..n - 1];
      n
  }

  /** Formatted input of a 64-bit integer: the value and what follows it. */
  function ReadInteger(text: string): Option<(Time, string)> {
    var s := TrimLeft(text);
    var signed := s != "" && (s[0] == '-' || s[0] == '+');
    var digits := if signed then s[1..] else s;
    var n := DigitsLength(digits);
    if n == 0 then None
    else
      var magnitude: int := Number(digits[..n]);
      var value := if signed && s[0] == '-' then 0 - magnitude else magnitude;
      if -INT64_LIMIT <= value < INT64_LIMIT then Some((value, digits[n..])) else None
  }

  /** The state in a file, when the file is well-formed. */
  function LoadText(text: string): Option<(Time, Time)> {
    var s := TrimLeft(text);
    var n := WordLength(s);
    if n == 0 then None
    else
      var success :- ReadInteger(s[n..]);
      var attempt :- ReadInteger(success.1);
      if s[..n] != MAGIC || success.0 < 0 || attempt.0 < 0 || TrimLeft(attempt.1) != "" then None
      else Some((success.0, attempt.0))
  }

  lemma {:induction false} DigitsLengthOf(digits: string, rest: string)
    requires forall c | c in digits :: IsDigit(c)
    requires rest == "" || !IsDigit(rest[0])
    ensures DigitsLength(digits + rest) == |digits|
  {
    if digits == "" {
      assert digits + rest == rest;
    } else {
      assert digits[0] in digits && (digits + rest)[1..] == digits[1..] + rest;
      DigitsLengthOf(digits[1..], rest);
    }
  }

  lemma ReadDecimal(value: nat, rest: string)
    requires value < INT64_LIMIT && (rest == "" || !IsDigit(rest[0]))
    ensures ReadInteger(" " + Decimal(value) + rest) == Some((value, rest))
  {
    hide Decimal, Number, DigitsLength;
    var digits := Decimal(value);
    var text := " " + digits + rest;
    assert digits[0] in digits && IsDigit(digits[0]);
    assert text[1..] == digits + rest && (digits + rest)[0] == digits[0];
    TrimLeftStep(text);
    TrimLeftStep(digits + rest);
    DigitsLengthOf(digits, rest);
    assert (digits + rest)[..|digits|] == digits && (digits + rest)[|digits|..] == rest;
    NumberOfDecimal(value);
  }

  lemma StateTextExample()
    ensures StateText(7, 9) == "SUCH_DAILY_1 7 9\n"
  {
    assert Decimal(7) == "7" && Decimal(9) == "9";
  }

  /** Loading what was written gives the same state. */
  lemma LoadAfterPersist(success: nat, attempt: nat)
    requires success < INT64_LIMIT && attempt < INT64_LIMIT
    ensures LoadText(StateText(success, attempt)) == Some((success, attempt))
  {
    hide Decimal, ReadInteger, WordLength;
    var text := StateText(success, attempt);
    var tail := " " + Decimal(attempt) + "\n";
    var rest := " " + Decimal(success) + tail;
    assert text == MAGIC + rest && text[0] == 'S';
    TrimLeftStep(text);
    WordLengthOfWord(MAGIC, rest);
    assert text[|MAGIC|..] == rest && text[..|MAGIC|] == MAGIC;
    ReadDecimal(success, tail);
    ReadDecimal(attempt, "\n");
    TrimLeftStep("\n");
    assert "\n"[1..] == "";
  }

  // ----- One process -----

  /** What one process knows and what the file holds. */
  datatype State = State(success: Time, attempt: Time, file: Option<string>)

  function Loaded(s: State, inspectable: bool): (State, bool) {
    var empty := s.(success := 0, attempt := 0);
    if !inspectable then (empty, false)
    else if s.file.None? then (empty, true)
    else
      match LoadText(s.file.value)
      case None => (empty, false)
      case Some((success, attempt)) => (s.(success := success, attempt := attempt), true)
  }

  function Persisted(s: State, works: bool): State {
    if works && s.success >= 0 && s.attempt >= 0 then s.(file := Some(StateText(s.success, s.attempt))) else s
  }

  predicate IsDue(s: State, now: int, hasRoots: bool, workerActive: bool) {
    && now > 0 && hasRoots && !workerActive
    && s.success <= now && (s.success != 0 ==> now - s.success >= REFRESH_SECONDS)
    && s.attempt <= now && (s.attempt != 0 ==> now - s.attempt >= RETRY_SECONDS)
  }

  class DailyIndexRefresh {
    var lastSuccess: Time
    var lastAttempt: Time
    /** The state file, which outlives the process. */
    var file: Option<string>

    ghost function Get(): State
      reads this
    {
      State(lastSuccess, lastAttempt, file)
    }

    ghost predicate Valid()
      reads this
    {
      lastSuccess >= 0 && lastAttempt >= 0
    }

    constructor (file: Option<string>)
      ensures Valid() && Get() == State(0, 0, file)
    {
      lastSuccess, lastAttempt, this.file := 0, 0, file;
    }

    /** A new process reads the file; a malformed one is left as it is. */
    method Load(inspectable: bool) returns (ok: bool)
      modifies this
      ensures Valid() && (Get(), ok) == Loaded(old(Get()), inspectable) && file == old(file)
    {
      lastAttempt := 0;
      lastSuccess := 0;
      if !inspectable {
        return false;
      }
      if file.None? {
        return true;
      }
      hide LoadText;
      LoadedIsNatural(file.value);
      match LoadText(file.value) {
        case None =>
          return false;
        case Some((success, attempt)) =>
          lastSuccess := success;
          lastAttempt := attempt;
          ok := true;
      }
    }

    method Due(now: Time, hasRoots: bool, workerActive: bool) returns (due: bool)
      ensures due <==> IsDue(Get(), now, hasRoots, workerActive)
      ensures due <==>
                && now > 0 && hasRoots && !workerActive
                && (lastSuccess == 0 || now >= lastSuccess + 86400) && lastSuccess <= now
                && (lastAttempt == 0 || now >= lastAttempt + 3600) && lastAttempt <= now
    {
      if now <= 0 || !hasRoots || workerActive {
        return false;
      }
      if lastSuccess > now {
        return false;
      }
      if lastSuccess != 0 && now - lastSuccess < REFRESH_SECONDS {
        return false;
      }
      if lastAttempt > now {
        return false;
      }
      due := lastAttempt == 0 || now - lastAttempt >= RETRY_SECONDS;
    }

    /** Writes a new file and renames it over the old one, or leaves the old one. */
    method Persist(works: bool) returns (ok: bool)
      requires Valid()
      modifies this`file
      ensures Get() == Persisted(old(Get()), works) && ok == works
    {
      if works {
        file := Some(StateText(lastSuccess, lastAttempt));
      }
      ok := works;
    }

    method RecordAttempt(now: Time, works: bool) returns (ok: bool)
      requires Valid()
      modifies this
      ensures Valid() && Get() == Noted(old(Get()), now, works) && lastSuccess == old(lastSuccess)
      ensures lastAttempt == if now > 0 then now else old(lastAttempt)
      ensures ok <==> now > 0 && works
      ensures file == if ok then Some(StateText(lastSuccess, lastAttempt)) else old(file)
    {
      if now <= 0 {
        return false;
      }
      lastAttempt := now;
      ok := Persist(works);
    }

    method RecordFailure(now: Time, works: bool) returns (ok: bool)
      requires Valid()
      modifies this
      ensures Valid() && Get() == Noted(old(Get()), now, works) && lastSuccess == old(lastSuccess)
      ensures lastAttempt == if now > 0 then now else old(lastAttempt)
      ensures ok <==> now > 0 && works
      ensures file == if ok then Some(StateText(lastSuccess, lastAttempt)) else old(file)
    {
      if now <= 0 {
        return false;
      }
      lastAttempt := now;
      ok := Persist(works);
    }

    method RecordSuccess(now: Time, works: bool) returns (ok: bool)
      requires Valid()
      modifies this
      ensures Valid() && Get() == Succeeded(old(Get()), now, works)
      ensures now > 0 ==> lastSuccess == now && lastAttempt == now
      ensures now <= 0 ==> Get() == old(Get())
      ensures ok <==> now > 0 && works
      ensures file == if ok then Some(StateText(lastSuccess, lastAttempt)) else old(file)
    {
      if now <= 0 {
        return false;
      }
      lastSuccess := now;
      lastAttempt := now;
      ok := Persist(works);
    }
  }

  lemma LoadedIsNatural(text: string)
    ensures LoadText(text).Some? ==> LoadText(text).value.0 >= 0 && LoadText(text).value.1 >= 0
  {
    hide ReadInteger, WordLength;
  }

  /** What a recorded attempt or failure leaves. */
  function Noted(s: State, now: Time, works: bool): State {
    if now <= 0 then s else Persisted(s.(attempt := now), works)
  }

  function Succeeded(s: State, now: Time, works: bool): State {
    if now <= 0 then s else Persisted(s.(success := now, attempt := now), works)
  }

  // ----- Runs -----

  /** A tick checks the schedule and, when a refresh is due, records the outcome of
      starting it, at a later time; workers end and are started by hand at any time; the
      program may be left and started again. */
  datatype Event =
    | Tick(now: Time, hasRoots: bool, workerActive: bool, later: Time, works: bool)
    | Attempted(now: Time, works: bool)
    | Failed(now: Time, works: bool)
    | Completed(now: Time, works: bool)
    | Restart(now: Time, inspectable: bool)

  /** `ready` is whether the last load worked; `saved` whether the file holds everything
      recorded so far; `starts` and `successes` are the times of scheduled starts and of
      recorded successes. */
  datatype Run = Run(state: State, ready: bool, saved: bool, starts: seq<Time>, successes: seq<Time>)

  function Handle(r: Run, e: Event): Run {
    match e
    case Restart(_, inspectable) =>
      var (state, ready) := Loaded(r.state, inspectable);
      r.(state := state, ready := ready)
    case Tick(now, hasRoots, workerActive, later, works) =>
      if r.ready && IsDue(r.state, now, hasRoots, workerActive) then
        r.(state := Noted(r.state, later, works), saved := works, starts := r.starts + [now])
      else r
    case Attempted(now, works) =>
      if r.ready && now > 0 then r.(state := Noted(r.state, now, works), saved := works) else r
    case Failed(now, works) =>
      if r.ready && now > 0 then r.(state := Noted(r.state, now, works), saved := works) else r
    case Completed(now, works) =>
      if r.ready && now > 0 then r.(state := Succeeded(r.state, now, works), saved := works, successes := r.successes + [now])
      else r
  }

  /** The program starts with whatever file there is. */
  function Begin(file: Option<string>): Run {
    Run(State(0, 0, file), false, true, [], [])
  }

  function After(file: Option<string>, events: seq<Event>): Run {
    if events == [] then Begin(file) else Handle(After(file, events[..|events| - 1]), events[|events| - 1])
  }

  /** The running program: the schedule object and whether it may be used. */
  class Program {
    const refresh: DailyIndexRefresh
    var ready: bool
    ghost var run: Run

    ghost predicate Valid()
      reads this, refresh
    {
      refresh.Valid() && run.state == refresh.Get() && run.ready == ready
    }

    constructor (file: Option<string>)
      ensures Valid() && run == Begin(file) && fresh(refresh)
    {
      refresh := new DailyIndexRefresh(file);
      ready, run := false, Begin(file);
    }

    method HandleEvents(events: seq<Event>)
      requires Valid() && run == Begin(refresh.file)
      modifies this, refresh
      ensures Valid() && run == After(old(refresh.file), events)
    {
      hide Loaded, IsDue, Noted, Succeeded;
      ghost var file := refresh.file;
      for i := 0 to |events|
        invariant Valid() && run == After(file, events[..i])
      {
        assert events[..i + 1][..i] == events[..i];
        match events[i] {
          case Restart(_, inspectable) =>
            ready := refresh.Load(inspectable);
          case Tick(now, hasRoots, workerActive, later, works) =>
            if ready {
              var due := refresh.Due(now, hasRoots, workerActive);
              if due {
                var _ := refresh.RecordAttempt(later, works);
              }
            }
          case Attempted(now, works) =>
            if ready {
              NothingNoted(refresh.Get(), now, works);
              var _ := refresh.RecordAttempt(now, works);
            }
          case Failed(now, works) =>
            if ready {
              NothingNoted(refresh.Get(), now, works);
              var _ := refresh.RecordFailure(now, works);
            }
          case Completed(now, works) =>
            if ready {
              NothingNoted(refresh.Get(), now, works);
              var _ := refresh.RecordSuccess(now, works);
            }
        }
        run := Handle(run, events[i]);
      }
      assert events[..|events|] == events;
    }
  }

  lemma NothingNoted(s: State, now: Time, works: bool)
    ensures now <= 0 ==> Noted(s, now, works) == s == Succeeded(s, now, works)
  {
  }

  /** What events leave behind: a start that is due is noted at its later time, and so are
      attempts, failures and successes, as long as the state could be loaded. */
  lemma EventsAreRecorded(r: Run, now: Time, later: Time, works: bool)
    requires r.ready && 0 < now <= later
    ensures IsDue(r.state, now, true, false) ==>
              var s := Handle(r, Tick(now, true, false, later, works));
              s.starts == r.starts + [now] && s.state.attempt == later && s.state.success == r.state.success && s.saved == works
    ensures var s := Handle(r, Attempted(now, works));
            s.starts == r.starts && s.state.attempt == now && s.state.success == r.state.success && s.saved == works
    ensures Handle(r, Failed(now, works)) == Handle(r, Attempted(now, works))
    ensures var s := Handle(r, Completed(now, works));
            s.successes == r.successes + [now] && s.state.attempt == now && s.state.success == now && s.saved == works
  {
  }

  // ----- Claims about runs -----

  predicate Ordered(e: Event) {
    e.Tick? ==> e.now <= e.later
  }

  function EndOf(e: Event): Time {
    if e.Tick? then e.later else e.now
  }

  /** The clock never goes back. */
  ghost predicate ClockRuns(events: seq<Event>) {
    && (forall e | e in events :: Ordered(e))
    && forall i, j | 0 <= i < j < |events| :: EndOf(events[i]) <= events[j].now
  }

  /** Whenever the program is started again, the last thing it recorded was saved. */
  ghost predicate RestartsSaved(file: Option<string>, events: seq<Event>) {
    forall i | 0 <= i < |events| && events[i].Restart? :: After(file, events[..i]).saved
  }

  ghost predicate Reflected(r: Run, success: Time, attempt: Time) {
    && (forall t | t in r.starts :: 0 < t <= attempt)
    && (forall t | t in r.successes :: 0 < t <= success)
  }

  ghost predicate FileReflects(r: Run) {
    if r.state.file.Some? && LoadText(r.state.file.value).Some? then
      var (success, attempt) := LoadText(r.state.file.value).value;
      Reflected(r, success, attempt)
    else r.starts == [] && r.successes == []
  }

  ghost predicate Spaced(starts: seq<Time>) {
    forall i, j | 0 <= i < j < |starts| :: starts[j] - starts[i] >= RETRY_SECONDS * (j - i)
  }

  /** `now` is a time that no event has passed. */
  ghost predicate Good(r: Run, now: Time) {
    && r.state.success >= 0 && r.state.attempt >= 0
    && (r.ready ==> Reflected(r, r.state.success, r.state.attempt))
    && (r.saved ==> FileReflects(r))
    && (forall t | t in r.starts :: 0 < t <= now)
    && (forall t | t in r.successes :: t <= now)
    && Spaced(r.starts)
  }

  lemma LaterIsGood(r: Run, now: Time, later: Time)
    requires Good(r, now) && now <= later
    ensures Good(r, later)
  {
    hide FileReflects, Spaced;
  }

  lemma NotedIsGood(r: Run, now: Time, works: bool)
    requires Good(r, now) && r.ready && now > 0
    ensures Good(r.(state := Noted(r.state, now, works), saved := works), now)
  {
    hide LoadText, StateText, Spaced;
    LoadAfterPersist(r.state.success, now);
  }

  lemma SucceededIsGood(r: Run, now: Time, works: bool)
    requires Good(r, now) && r.ready && now > 0
    ensures Good(r.(state := Succeeded(r.state, now, works), saved := works, successes := r.successes + [now]), now)
  {
    hide LoadText, StateText, Spaced;
    LoadAfterPersist(now, now);
  }

  lemma RestartIsGood(r: Run, now: Time, inspectable: bool)
    requires Good(r, now) && r.saved
    ensures Good(Handle(r, Restart(now, inspectable)), now)
  {
    hide LoadText, Spaced;
    if r.state.file.Some? {
      LoadedIsNatural(r.state.file.value);
    }
  }

  lemma StartIsSpaced(starts: seq<Time>, now: Time)
    requires Spaced(starts) && (starts != [] ==> now - starts[|starts| - 1] >= RETRY_SECONDS)
    ensures Spaced(starts + [now])
  {
    var all, n := starts + [now], |starts|;
    forall i, j | 0 <= i < j < |all|
      ensures all[j] - all[i] >= RETRY_SECONDS * (j - i)
    {
      if j == n && i < n - 1 {
        assert starts[n - 1] - starts[i] >= RETRY_SECONDS * (n - 1 - i);
      }
    }
  }

  predicate Starts(r: Run, e: Event) {
    e.Tick? && r.ready && IsDue(r.state, e.now, e.hasRoots, e.workerActive)
  }

  lemma TickIsGood(r: Run, e: Event)
    requires e.Tick? && Ordered(e) && Good(r, e.now)
    ensures Good(Handle(r, e), e.later)
    ensures Starts(r, e) ==> forall t | t in r.successes :: e.now - t >= REFRESH_SECONDS
  {
    hide FileReflects, Noted, Spaced;
    LaterIsGood(r, e.now, e.later);
    if Starts(r, e) {
      NotedIsGood(r, e.later, e.works);
      if r.starts != [] {
        assert r.starts[|r.starts| - 1] in r.starts;
      }
      StartIsSpaced(r.starts, e.now);
      StartedIsGood(r, e.now, e.later, e.works);
    }
  }

  lemma StartedIsGood(r: Run, now: Time, later: Time, works: bool)
    requires 0 < now <= later && r.ready && Good(r, later) && Spaced(r.starts + [now])
    ensures Good(r.(state := Noted(r.state, later, works), saved := works, starts := r.starts + [now]), later)
  {
    hide LoadText, StateText, Spaced;
    LoadAfterPersist(r.state.success, later);
  }

  lemma EventIsGood(r: Run, e: Event)
    requires Ordered(e) && Good(r, e.now) && (e.Restart? ==> r.saved)
    ensures Good(Handle(r, e), EndOf(e))
  {
    hide Good, Noted, Succeeded, Loaded, IsDue;
    match e
    case Tick(_, _, _, _, _) => TickIsGood(r, e);
    case Restart(now, inspectable) => RestartIsGood(r, now, inspectable);
    case Completed(now, works) => if r.ready && now > 0 { SucceededIsGood(r, now, works); }
    case Attempted(now, works) => if r.ready && now > 0 { NotedIsGood(r, now, works); }
    case Failed(now, works) => if r.ready && now > 0 { NotedIsGood(r, now, works); }
  }

  lemma BeginIsGood(file: Option<string>)
    ensures Good(Begin(file), -INT64_LIMIT)
  {
    hide LoadText;
  }

  lemma {:induction false} RunIsGood(file: Option<string>, events: seq<Event>)
    requires ClockRuns(events) && RestartsSaved(file, events)
    ensures Good(After(file, events), if events == [] then -INT64_LIMIT else EndOf(events[|events| - 1]))
  {
    hide Good, Handle, Begin;
    if events == [] {
      BeginIsGood(file);
    } else {
      var front, e := events[..|events| - 1], events[|events| - 1];
      assert e in events && forall x | x in front :: x in events;
      assert forall i | 0 <= i < |front| :: front[i] == events[i] && front[..i] == events[..i];
      RunIsGood(file, front);
      if front != [] {
        assert EndOf(events[|front| - 1]) <= e.now;
      }
      LaterIsGood(After(file, front), if front == [] then -INT64_LIMIT else EndOf(front[|front| - 1]), e.now);
      EventIsGood(After(file, front), e);
    }
  }

  /** Over every run with a clock that never goes back, restarts included: scheduled
      refreshes are an hour apart, so that W seconds hold at most W / 3600 + 1 of them. */
  lemma RefreshesAreThrottled(file: Option<string>, events: seq<Event>, i: nat, j: nat)
    requires ClockRuns(events) && RestartsSaved(file, events)
    requires i < j < |After(file, events).starts|
    ensures var starts := After(file, events).starts;
            && starts[j] - starts[i] >= RETRY_SECONDS * (j - i)
            && forall window: nat | starts[j] - starts[i] <= window :: j - i + 1 <= window / RETRY_SECONDS + 1
  {
    hide After;
    RunIsGood(file, events);
  }

  /** No scheduled refresh starts within a day of any recorded success. */
  lemma SuccessRestsADay(file: Option<string>, events: seq<Event>, tick: Event)
    requires ClockRuns(events + [tick]) && RestartsSaved(file, events)
    requires Starts(After(file, events), tick)
    ensures forall t | t in After(file, events).successes :: tick.now - t >= REFRESH_SECONDS
  {
    hide After, Good, IsDue;
    var all := events + [tick];
    assert tick in all && forall e | e in events :: e in all;
    assert forall i | 0 <= i < |events| :: all[i] == events[i];
    assert all[|events|] == tick;
    RunIsGood(file, events);
    if events != [] {
      assert EndOf(all[|events| - 1]) <= tick.now;
    }
    LaterIsGood(After(file, events), if events == [] then -INT64_LIMIT else EndOf(events[|events| - 1]), tick.now);
    TickIsGood(After(file, events), tick);
  }

  /** The file lets a new process start a refresh within an hour of the start at `last`:
      it is missing, or holds an older attempt and no success that rules the hour out. */
  predicate FileForgets(file: Option<string>, last: Time) {
    file.None? ||
    match LoadText(file.value)
    case None => false
    case Some((success, attempt)) => attempt < last && (success == 0 || success + REFRESH_SECONDS - RETRY_SECONDS < last)
  }

  /** Exactly then a restart within that hour can break it: some time before the hour is
      over is due for the new process. */
  lemma RestartBreaksTheHourIff(file: Option<string>, events: seq<Event>, now: Time)
    requires ClockRuns(events + [Restart(now, true)]) && RestartsSaved(file, events)
    requires After(file, events).starts != []
    requires var starts := After(file, events).starts; now < starts[|starts| - 1] + RETRY_SECONDS
    ensures var r := After(file, events);
            var last, again := r.starts[|r.starts| - 1], Handle(r, Restart(now, true));
            (exists t :: now <= t < last + RETRY_SECONDS && again.ready && IsDue(again.state, t, true, false))
            <==> FileForgets(r.state.file, last)
  {
    hide After, LoadText, FileForgets, Handle, IsDue, ClockRuns, RestartsSaved;
    var r := After(file, events);
    LastStartWas(file, events, Restart(now, true));
    DueWithinTheHour(r, now, r.starts[|r.starts| - 1]);
  }

  lemma LastStartWas(file: Option<string>, events: seq<Event>, next: Event)
    requires ClockRuns(events + [next]) && RestartsSaved(file, events) && After(file, events).starts != []
    ensures var starts := After(file, events).starts; 0 < starts[|starts| - 1] <= next.now
  {
    hide After, Good, ClockRuns, RestartsSaved;
    ClockRanBefore(events, next);
    RunIsGood(file, events);
    if events == [] {
      NothingStarted(file);
    }
    LastStartIsPast(After(file, events), if events == [] then -INT64_LIMIT else EndOf(events[|events| - 1]));
  }

  lemma ClockRanBefore(events: seq<Event>, next: Event)
    requires ClockRuns(events + [next])
    ensures ClockRuns(events) && (events != [] ==> EndOf(events[|events| - 1]) <= next.now)
  {
    var all := events + [next];
    assert next in all && forall e | e in events :: e in all;
    assert forall i | 0 <= i < |events| :: all[i] == events[i];
    assert all[|events|] == next;
    if events != [] {
      assert EndOf(all[|events| - 1]) <= next.now;
    }
  }

  lemma LastStartIsPast(r: Run, now: Time)
    requires Good(r, now) && r.starts != []
    ensures 0 < r.starts[|r.starts| - 1] <= now
  {
    assert r.starts[|r.starts| - 1] in r.starts;
  }

  lemma NothingStarted(file: Option<string>)
    ensures After(file, []).starts == []
  {
  }

  lemma DueWithinTheHour(r: Run, now: Time, last: Time)
    requires 0 < last <= now < last + RETRY_SECONDS
    ensures var again := Handle(r, Restart(now, true));
            (exists t :: now <= t < last + RETRY_SECONDS && again.ready && IsDue(again.state, t, true, false))
            <==> FileForgets(r.state.file, last)
  {
    hide LoadText;
    var again := Handle(r, Restart(now, true));
    if r.state.file.Some? {
      LoadedIsNatural(r.state.file.value);
    }
    if FileForgets(r.state.file, last) {
      var a := if again.state.attempt == 0 then 0 else again.state.attempt + RETRY_SECONDS;
      var b := if again.state.success == 0 then 0 else again.state.success + REFRESH_SECONDS;
      var t: int := if now >= a && now >= b then now else if a >= b then a else b;
      assert now <= t < last + RETRY_SECONDS && again.ready && IsDue(again.state, t, true, false);
    }
  }

  /** A run whose last record is not saved forgets it: the hypothesis is needed. */
  const FORGETFUL := [
    Restart(1, true), Tick(1, true, false, 1, false), Restart(2, true), Tick(2, true, false, 2, true)]

  lemma UnsavedStartIsForgotten()
    ensures ClockRuns(FORGETFUL) && After(None, FORGETFUL).starts == [1, 2]
  {
    var e := FORGETFUL;
    assert e[..4] == e && e[..4][..3] == e[..3] && e[..3][..2] == e[..2] && e[..2][..1] == e[..1] && e[..1][..0] == [];
    var r1 := Handle(Begin(None), e[0]);
    assert r1 == Run(State(0, 0, None), true, true, [], []);
    var r2 := Handle(r1, e[1]);
    assert r2 == Run(State(0, 1, None), true, false, [1], []);
    var r3 := Handle(r2, e[2]);
    assert r3 == Run(State(0, 0, None), true, false, [1], []);
    assert Handle(r3, e[3]).starts == [1, 2];
    assert After(None, e[..1]) == r1;
    assert After(None, e[..2]) == r2;
    assert After(None, e[..3]) == r3;
  }
}
