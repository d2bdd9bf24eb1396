/** docker/reflection_daemon.py:56-87: the debounced trigger watcher with its periodic safety
    net. Clock readings, file touches and run durations are arbitrary inputs. */
module ReflectionDaemon {
  import opened Sequences

  datatype Config = Config(debounce: int, interval: int)

  datatype Kind = Debounced | SafetyNet

  datatype Daemon = Daemon(lastTrigger: real, lastRun: real, pendingSince: real)

  const START := Daemon(0.0, 0.0, 0.0)

  /** What one iteration reads: the clock, the trigger file's mtime if it exists, and, should it
      run the reflection, the clock when that ends. */
  datatype Tick = Tick(now: real, mtime: Option<real>, endAt: real)

  function Mtime(t: Tick): real { if t.mtime.Some? then t.mtime.value else 0.0 }

  predicate Touched(d: Daemon, t: Tick) { Mtime(t) > d.lastTrigger }

  function Noticed(d: Daemon, t: Tick): Daemon {
    if Touched(d, t) then d.(lastTrigger := Mtime(t), pendingSince := t.now) else d
  }

  /** The run, if any, that this iteration starts. */
  function Starts(c: Config, d: Daemon, t: Tick): Option<Kind> {
    var e := Noticed(d, t);
    if e.pendingSince != 0.0 && t.now - e.pendingSince >= c.debounce as real then Some(Debounced)
    else if t.now - e.lastRun >= c.interval as real then Some(SafetyNet)
    else None
  }

  function Step(c: Config, d: Daemon, t: Tick): Daemon {
    var e := Noticed(d, t);
    match Starts(c, d, t)
    case None => e
    case Some(Debounced) => e.(lastRun := t.endAt, pendingSince := 0.0)
    case Some(SafetyNet) => e.(lastRun := t.endAt)
  }

  function After(c: Config, ticks: seq<Tick>): Daemon {
    if ticks == [] then START else Step(c, After(c, ticks[..|ticks| - 1]), ticks[|ticks| - 1])
  }

  /** The run, if any, that iteration `n` starts. */
  function RunAt(c: Config, ticks: seq<Tick>, n: nat): Option<Kind>
    requires n < |ticks|
  {
    Starts(c, After(c, ticks[..n]), ticks[n])
  }

  lemma AfterStep(c: Config, ticks: seq<Tick>, n: nat)
    requires n < |ticks|
    ensures After(c, ticks[..n + 1]) == Step(c, After(c, ticks[..n]), ticks[n])
  {
    assert ticks[..n + 1][..n] == ticks[..n];
  }

  class Watcher {
    const config: Config
    var lastTriggerMtime: real
    var lastRunAt: real
    var pendingSince: real

    ghost function Current(): Daemon
      reads this
    {
      Daemon(lastTriggerMtime, lastRunAt, pendingSince)
    }

    constructor (config: Config)
      ensures Current() == START && this.config == config
    {
      this.config := config;
      lastTriggerMtime, lastRunAt, pendingSince := 0.0, 0.0, 0.0;
    }

    /** One iteration of the loop. */
    method Iterate(t: Tick) returns (ran: Option<Kind>)
      modifies this
      ensures Current() == Step(config, old(Current()), t)
      ensures ran == Starts(config, old(Current()), t)
    {
      var triggerMtime := 0.0;
      if t.mtime.Some? {
        triggerMtime := t.mtime.value;
      }
      if triggerMtime > lastTriggerMtime {
        lastTriggerMtime := triggerMtime;
        pendingSince := t.now;
      }
      if pendingSince != 0.0 && t.now - pendingSince >= config.debounce as real {
        lastRunAt := t.endAt;
        pendingSince := 0.0;
        return Some(Debounced);
      }
      if t.now - lastRunAt >= config.interval as real {
        lastRunAt := t.endAt;
        return Some(SafetyNet);
      }
      return None;
    }

    /** The loop on the given inputs; the result lists the run each iteration started. */
    method Watch(ticks: seq<Tick>) returns (runs: seq<Option<Kind>>)
      requires Current() == START
      modifies this
      ensures Current() == After(config, ticks)
      ensures |runs| == |ticks| && forall n :: 0 <= n < |ticks| ==> runs[n] == RunAt(config, ticks, n)
    {
      runs := [];
      for n := 0 to |ticks|
        invariant Current() == After(config, ticks[..n])
        invariant |runs| == n && forall m :: 0 <= m < n ==> runs[m] == RunAt(config, ticks, m)
      {
        AfterStep(config, ticks, n);
        var ran := Iterate(ticks[n]);
        runs := runs + [ran];
      }
      assert ticks[..|ticks|] == ticks;
    }
  }

  // ---------------------------------------------------------------------------------------
  // Debounce.

  /** Iteration `n` observes a touch. */
  predicate Observes(c: Config, ticks: seq<Tick>, n: nat)
    requires n < |ticks|
  {
    Touched(After(c, ticks[..n]), ticks[n])
  }

  /** Iteration `i` made the last observation before `n`, and no debounced run started since. */
  ghost predicate PendingFrom(c: Config, ticks: seq<Tick>, i: int, n: nat)
    requires n <= |ticks|
  {
    && 0 <= i < n && Observes(c, ticks, i)
    && (forall j :: i < j < n ==> !Observes(c, ticks, j))
    && (forall j :: i <= j < n ==> RunAt(c, ticks, j) != Some(Debounced))
  }

  lemma {:induction false} PendingIsLastTouch(c: Config, ticks: seq<Tick>, n: nat)
    requires n <= |ticks| && After(c, ticks[..n]).pendingSince != 0.0
    ensures exists i :: PendingFrom(c, ticks, i, n) && After(c, ticks[..n]).pendingSince == ticks[i].now
  {
    if n > 0 {
      var m := n - 1;
      AfterStep(c, ticks, m);
      assert RunAt(c, ticks, m) != Some(Debounced);
      if Observes(c, ticks, m) {
        assert PendingFrom(c, ticks, m, n);
      } else {
        PendingIsLastTouch(c, ticks, m);
        var i :| PendingFrom(c, ticks, i, m) && After(c, ticks[..m]).pendingSince == ticks[i].now;
        PendingLonger(c, ticks, i, m);
      }
    }
  }

  lemma PendingLonger(c: Config, ticks: seq<Tick>, i: int, m: nat)
    requires m < |ticks| && PendingFrom(c, ticks, i, m)
    requires !Observes(c, ticks, m) && RunAt(c, ticks, m) != Some(Debounced)
    ensures PendingFrom(c, ticks, i, m + 1)
  {
  }

  /** A debounced run starts only after DEBOUNCE_SEC without a newer touch observed, and serves
      an observation that no debounced run has served. */
  lemma DebouncedRunIsQuiet(c: Config, ticks: seq<Tick>, n: nat) returns (i: int)
    requires n < |ticks| && RunAt(c, ticks, n) == Some(Debounced)
    ensures 0 <= i <= n && Observes(c, ticks, i)
    ensures ticks[n].now - ticks[i].now >= c.debounce as real
    ensures forall j :: i < j <= n ==> !Observes(c, ticks, j)
    ensures forall j :: i <= j < n ==> RunAt(c, ticks, j) != Some(Debounced)
  {
    if Observes(c, ticks, n) {
      i := n;
    } else {
      PendingIsLastTouch(c, ticks, n);
      i :| PendingFrom(c, ticks, i, n) && After(c, ticks[..n]).pendingSince == ticks[i].now;
    }
  }

  // ---------------------------------------------------------------------------------------
  // The safety net.

  /** Runs last at most `longest`, and an iteration starts at most `step` after the previous one
      or after the end of its run. */
  ghost predicate Timely(c: Config, ticks: seq<Tick>, longest: real, step: real) {
    forall n: nat :: n < |ticks| ==> TimelyAt(c, ticks, n, longest, step)
  }

  ghost predicate TimelyAt(c: Config, ticks: seq<Tick>, n: nat, longest: real, step: real)
    requires n < |ticks|
  {
    var ran := RunAt(c, ticks, n).Some?;
    && (ran ==> ticks[n].endAt <= ticks[n].now + longest)
    && (n + 1 < |ticks| ==> ticks[n + 1].now <= (if ran then ticks[n].endAt else ticks[n].now) + step)
  }

  lemma {:induction false} LastRunKept(c: Config, ticks: seq<Tick>, i: nat, n: nat)
    requires i < n <= |ticks| && RunAt(c, ticks, i).Some?
    requires forall j :: i < j < n ==> RunAt(c, ticks, j).None?
    ensures After(c, ticks[..n]).lastRun == ticks[i].endAt
    decreases n
  {
    AfterStep(c, ticks, n - 1);
    if n - 1 > i {
      LastRunKept(c, ticks, i, n - 1);
      assert RunAt(c, ticks, n - 1).None?;
    }
  }

  /** However the file is touched, from one run start to the next at most the interval, one run
      and one loop step go by. */
  lemma RunsAreFrequent(c: Config, ticks: seq<Tick>, i: nat, n: nat, longest: real, step: real)
    requires c.interval >= 0 && Timely(c, ticks, longest, step)
    requires i < n < |ticks| && RunAt(c, ticks, i).Some?
    requires forall j :: i < j < n ==> RunAt(c, ticks, j).None?
    ensures ticks[n].now - ticks[i].now <= c.interval as real + longest + step
  {
    assert TimelyAt(c, ticks, i, longest, step) && TimelyAt(c, ticks, n - 1, longest, step);
    if n - 1 > i {
      LastRunKept(c, ticks, i, n - 1);
      assert RunAt(c, ticks, n - 1).None?;
    }
  }

  lemma {:induction false} PendingKept(c: Config, ticks: seq<Tick>, i: nat, n: nat)
    requires i < n <= |ticks| && Observes(c, ticks, i)
    requires forall j :: i < j < n ==> !Observes(c, ticks, j)
    requires forall j :: i <= j < n ==> RunAt(c, ticks, j) != Some(Debounced)
    ensures After(c, ticks[..n]).pendingSince == ticks[i].now
    decreases n
  {
    AfterStep(c, ticks, n - 1);
    assert RunAt(c, ticks, n - 1) != Some(Debounced);
    if n - 1 > i {
      PendingKept(c, ticks, i, n - 1);
      assert !Observes(c, ticks, n - 1);
    }
  }

  /** An iteration observes a touch exactly when the file's mtime is above zero and all earlier
      readings. */
  lemma {:induction false} ObservesExactly(c: Config, ticks: seq<Tick>, n: nat)
    requires n < |ticks|
    ensures Observes(c, ticks, n) <==>
            ticks[n].mtime.Some? && ticks[n].mtime.value > 0.0
            && forall j :: 0 <= j < n && ticks[j].mtime.Some? ==> ticks[n].mtime.value > ticks[j].mtime.value
  {
    LastTriggerIsHighest(c, ticks, n);
  }

  lemma {:induction false} LastTriggerIsHighest(c: Config, ticks: seq<Tick>, n: nat)
    requires n <= |ticks|
    ensures var high := After(c, ticks[..n]).lastTrigger;
            && high >= 0.0
            && (forall j :: 0 <= j < n && ticks[j].mtime.Some? ==> ticks[j].mtime.value <= high)
            && (high == 0.0 || exists j :: 0 <= j < n && ticks[j].mtime == Some(high))
  {
    if n > 0 {
      LastTriggerIsHighest(c, ticks, n - 1);
      AfterStep(c, ticks, n - 1);
      var was, high := After(c, ticks[..n - 1]).lastTrigger, After(c, ticks[..n]).lastTrigger;
      if high == was && high != 0.0 {
        var j :| 0 <= j < n - 1 && ticks[j].mtime == Some(high);
      } else if high != 0.0 {
        assert ticks[n - 1].mtime == Some(high);
      }
    }
  }

  /** The touch observed at `i` is the latest by iteration `n`, waits since a proper clock reading
      at least the debounce, and no debounced run has served it. */
  ghost predicate Due(c: Config, ticks: seq<Tick>, i: int, n: nat)
    requires n < |ticks|
  {
    && 0 <= i <= n && Observes(c, ticks, i) && ticks[i].now != 0.0
    && ticks[n].now - ticks[i].now >= c.debounce as real
    && (forall j :: i < j <= n ==> !Observes(c, ticks, j))
    && (forall j :: i <= j < n ==> RunAt(c, ticks, j) != Some(Debounced))
  }

  /** A debounced run starts exactly when a touch is due, the safety net or not. */
  lemma DebouncedExactly(c: Config, ticks: seq<Tick>, n: nat)
    requires n < |ticks|
    ensures RunAt(c, ticks, n) == Some(Debounced) <==> exists i :: Due(c, ticks, i, n)
  {
    if RunAt(c, ticks, n) == Some(Debounced) {
      if Observes(c, ticks, n) {
        assert Due(c, ticks, n, n);
      } else {
        PendingIsLastTouch(c, ticks, n);
        var i :| PendingFrom(c, ticks, i, n) && After(c, ticks[..n]).pendingSince == ticks[i].now;
        assert Due(c, ticks, i, n);
      }
    }
    if i :| Due(c, ticks, i, n) {
      if i < n {
        PendingKept(c, ticks, i, n);
        assert !Observes(c, ticks, n);
      }
    }
  }

  lemma {:induction false} NoRunYet(c: Config, ticks: seq<Tick>, n: nat)
    requires n <= |ticks| && forall j :: 0 <= j < n ==> RunAt(c, ticks, j).None?
    ensures After(c, ticks[..n]).lastRun == 0.0
  {
    if n > 0 {
      NoRunYet(c, ticks, n - 1);
      AfterStep(c, ticks, n - 1);
      assert RunAt(c, ticks, n - 1).None?;
    }
  }

  /** The end of the last run before iteration `n`, or zero. */
  ghost predicate LastEnd(c: Config, ticks: seq<Tick>, n: nat, end: real)
    requires n <= |ticks|
  {
    if forall j :: 0 <= j < n ==> RunAt(c, ticks, j).None? then end == 0.0
    else exists i :: 0 <= i < n && RunAt(c, ticks, i).Some? && ticks[i].endAt == end
                     && forall j :: i < j < n ==> RunAt(c, ticks, j).None?
  }

  /** An iteration without a due touch runs exactly when the interval has passed since the last
      run ended, and then as the safety net: it comes neither early nor late. */
  lemma SafetyNetExactly(c: Config, ticks: seq<Tick>, n: nat, end: real)
    requires n < |ticks| && LastEnd(c, ticks, n, end)
    ensures (exists i :: Due(c, ticks, i, n)) ==> RunAt(c, ticks, n) == Some(Debounced)
    ensures !(exists i :: Due(c, ticks, i, n)) ==>
              RunAt(c, ticks, n) == if ticks[n].now - end >= c.interval as real then Some(SafetyNet) else None
  {
    DebouncedExactly(c, ticks, n);
    if forall j :: 0 <= j < n ==> RunAt(c, ticks, j).None? {
      NoRunYet(c, ticks, n);
    } else {
      var i :| 0 <= i < n && RunAt(c, ticks, i).Some? && ticks[i].endAt == end
               && forall j :: i < j < n ==> RunAt(c, ticks, j).None?;
      LastRunKept(c, ticks, i, n);
    }
  }

  /** Once touches stop, a run starts within the debounce and one loop step of the last one
      observed: an iteration that comes the debounce later runs, and no iteration before the run
      is more than a step later still. */
  lemma ServedInTime(c: Config, ticks: seq<Tick>, i: nat, n: nat, longest: real, step: real)
    requires Timely(c, ticks, longest, step)
    requires i < n < |ticks| && Observes(c, ticks, i) && ticks[i].now != 0.0
    requires forall j :: i < j <= n ==> !Observes(c, ticks, j)
    requires forall j :: i <= j < n ==> RunAt(c, ticks, j).None?
    ensures ticks[n].now - ticks[i].now < c.debounce as real + step
    ensures ticks[n].now - ticks[i].now >= c.debounce as real ==> RunAt(c, ticks, n) == Some(Debounced)
  {
    PendingKept(c, ticks, i, n);
    assert !Observes(c, ticks, n);
    assert TimelyAt(c, ticks, n - 1, longest, step) && RunAt(c, ticks, n - 1).None?;
    if n - 1 > i {
      PendingKept(c, ticks, i, n - 1);
      assert !Observes(c, ticks, n - 1);
    }
  }

  // ---------------------------------------------------------------------------------------
  // No lost trigger. The world adds the trigger file, its highest mtime so far, and whether
  // some touch has not been followed by a run or a drain.

  datatype World = World(daemon: Daemon, disk: real, top: real, owed: bool)

  /** During a run others may touch the file; the runner may consume it right before draining. */
  datatype During = TouchedAt(mtime: real) | Consumed

  datatype Event = Touch(mtime: real) | Remove | Iteration(now: real, during: seq<During>, endAt: real)

  const FRESH := World(START, 0.0, 0.0, false)

  function TouchFile(w: World, mtime: real): World { w.(disk := mtime, top := mtime, owed := true) }

  function DuringRun(w: World, events: seq<During>): World {
    if events == [] then w
    else
      var before := DuringRun(w, events[..|events| - 1]);
      match events[|events| - 1]
      case TouchedAt(m) => TouchFile(before, m)
      case Consumed => before.(disk := 0.0, owed := false)
  }

  function Reading(w: World, e: Event): Tick
    requires e.Iteration?
  {
    Tick(e.now, if w.disk == 0.0 then None else Some(w.disk), e.endAt)
  }

  function Next(c: Config, w: World, e: Event): World {
    match e
    case Touch(m) => TouchFile(w, m)
    case Remove => w.(disk := 0.0)
    case Iteration(now, during, endAt) =>
      var t := Reading(w, e);
      var ran := Starts(c, w.daemon, t);
      (if ran.Some? then DuringRun(w.(owed := false), during) else w).(daemon := Step(c, w.daemon, t))
  }

  ghost predicate Rising(w: World, events: seq<During>) {
    events == [] || (Rising(w, events[..|events| - 1]) &&
      (events[|events| - 1].TouchedAt? ==> events[|events| - 1].mtime > DuringRun(w, events[..|events| - 1]).top))
  }

  /** Touches strictly raise the mtime, and the file is only removed once its last touch has
      been observed. */
  ghost predicate Orderly(w: World, e: Event) {
    match e
    case Touch(m) => m > w.top
    case Remove => w.disk <= w.daemon.lastTrigger
    case Iteration(now, during, endAt) => now != 0.0 && Rising(w, during)
  }

  function Worlds(c: Config, events: seq<Event>): World {
    if events == [] then FRESH else Next(c, Worlds(c, events[..|events| - 1]), events[|events| - 1])
  }

  ghost predicate AllOrderly(c: Config, events: seq<Event>) {
    events == [] || (AllOrderly(c, events[..|events| - 1]) && Orderly(Worlds(c, events[..|events| - 1]), events[|events| - 1]))
  }

  /** An owed touch is still to be seen on disk, or is pending. */
  ghost predicate NotLost(w: World) {
    w.owed ==> w.disk > w.daemon.lastTrigger || w.daemon.pendingSince != 0.0
  }

  ghost predicate Consistent(w: World) {
    0.0 <= w.disk <= w.top && 0.0 <= w.daemon.lastTrigger <= w.top && NotLost(w)
  }

  /** Touches during a run are newer than anything the daemon has seen, so they stay visible. */
  lemma {:induction false} DuringRunVisible(w: World, events: seq<During>)
    requires 0.0 <= w.disk <= w.top && !w.owed && Rising(w, events)
    ensures var after := DuringRun(w, events);
            && 0.0 <= after.disk <= after.top && w.top <= after.top && after.daemon == w.daemon
            && (after.owed ==> after.disk > w.top)
  {
    if events != [] {
      DuringRunVisible(w, events[..|events| - 1]);
    }
  }

  lemma {:induction false} RisingIgnoresDebt(w: World, events: seq<During>)
    requires Rising(w, events)
    ensures Rising(w.(owed := false), events)
    ensures DuringRun(w.(owed := false), events).top == DuringRun(w, events).top
  {
    if events != [] {
      RisingIgnoresDebt(w, events[..|events| - 1]);
    }
  }

  lemma NextConsistent(c: Config, w: World, e: Event)
    requires Consistent(w) && Orderly(w, e)
    ensures Consistent(Next(c, w, e))
  {
    if e.Iteration? {
      if Starts(c, w.daemon, Reading(w, e)).Some? {
        RisingIgnoresDebt(w, e.during);
        DuringRunVisible(w.(owed := false), e.during);
      }
    }
  }

  /** Under orderly touches, at every moment of every run, a touch that no run has followed is
      either unseen on disk or recorded as pending. */
  lemma {:induction false} NoLostTrigger(c: Config, events: seq<Event>)
    requires AllOrderly(c, events)
    ensures Consistent(Worlds(c, events))
  {
    if events != [] {
      NoLostTrigger(c, events[..|events| - 1]);
      NextConsistent(c, Worlds(c, events[..|events| - 1]), events[|events| - 1]);
    }
  }

  // ---------------------------------------------------------------------------------------
  // The exact boundary, for any touches, removals and clock readings.

  /** The touch that stands when the run's events are over, if the last of them is one. */
  function LastTouch(during: seq<During>): Option<real> {
    if during == [] then None
    else
      match during[|during| - 1]
      case TouchedAt(m) => Some(m)
      case Consumed => None
  }

  /** What an event must meet, given the state before it. A touch must be newer than the last
      one observed, unless something is pending; a removal may take no owed touch with it, unless
      something is pending; an observation must not be made at clock zero; a touch that ends a
      run's events must be newer than the last one observed, unless the run leaves something
      pending, which a debounced run never does. */
  ghost predicate Safe(c: Config, w: World, e: Event) {
    match e
    case Touch(m) => m > w.daemon.lastTrigger || w.daemon.pendingSince != 0.0
    case Remove => !w.owed || w.daemon.pendingSince != 0.0
    case Iteration(now, during, endAt) =>
      var seen := w.disk > w.daemon.lastTrigger;
      var observed := if seen then w.disk else w.daemon.lastTrigger;
      var since := if seen then now else w.daemon.pendingSince;
      match Starts(c, w.daemon, Reading(w, e))
      case None => seen && w.owed ==> now != 0.0
      case Some(kind) =>
        LastTouch(during).Some? ==> LastTouch(during).value > observed || (kind == SafetyNet && since != 0.0)
  }

  ghost predicate AllSafe(c: Config, events: seq<Event>) {
    events == [] ||
    (var before, e := events[..|events| - 1], events[|events| - 1];
     AllSafe(c, before) && Safe(c, Worlds(c, before), e))
  }

  /** No touch is lost at any moment of the run. */
  ghost predicate NeverLost(c: Config, events: seq<Event>) {
    NotLost(Worlds(c, events)) && (events == [] || NeverLost(c, events[..|events| - 1]))
  }

  lemma {:induction false} DuringRunDaemon(w: World, during: seq<During>)
    ensures DuringRun(w, during).daemon == w.daemon
  {
    if during != [] {
      DuringRunDaemon(w, during[..|during| - 1]);
    }
  }

  lemma {:induction false} LastTriggerNatural(c: Config, events: seq<Event>)
    ensures Worlds(c, events).daemon.lastTrigger >= 0.0
  {
    if events != [] {
      var w := Worlds(c, events[..|events| - 1]);
      LastTriggerNatural(c, events[..|events| - 1]);
      if events[|events| - 1].Iteration? {
        DuringRunDaemon(w.(owed := false), events[|events| - 1].during);
      }
    }
  }

  /** For every sequence of events whatever: no touch is ever lost if and only if each event was
      safe when it happened. */
  lemma {:induction false} SafeExactly(c: Config, events: seq<Event>)
    ensures NeverLost(c, events) <==> AllSafe(c, events)
  {
    if events != [] {
      var before, e := events[..|events| - 1], events[|events| - 1];
      SafeExactly(c, before);
      LastTriggerNatural(c, before);
      if NotLost(Worlds(c, before)) {
      }
    }
  }

  /** Orderly events are safe at every moment. */
  lemma {:induction false} OrderlyIsSafe(c: Config, events: seq<Event>)
    requires AllOrderly(c, events)
    ensures AllSafe(c, events)
  {
    if events != [] {
      var n := |events| - 1;
      OrderlyIsSafe(c, events[..n]);
      NoLostTrigger(c, events[..n]);
      NextConsistent(c, Worlds(c, events[..n]), events[n]);
    }
  }
}
