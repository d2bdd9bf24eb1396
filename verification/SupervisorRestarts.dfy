/** docker/tam_supervisor.py:224-270: which exits lead to a restart, told from the record of what
    was done to the child so far: its spawns with their times, and the resets of its counter. */
module SupervisorRestarts {
  import opened Arithmetic
  import opened Sequences
  import opened Supervisor
  import opened SupervisorSafety

  /** When child `i` was last spawned; `start` is when all were. */
  function LastSpawn(trace: seq<Event>, i: nat, start: real): real {
    if trace == [] then start
    else
      var last := trace[|trace| - 1];
      if last.Spawned? && last.child == i then last.at else LastSpawn(trace[..|trace| - 1], i, start)
  }

  function IsFlag(): Event -> bool { (e: Event) => e.FlagSet? }

  /** What was done to the children. */
  function Done(trace: seq<Event>): seq<Event> { Reject(trace, IsFlag()) }

  lemma DoneExtend(trace: seq<Event>, e: Event, i: nat, start: real)
    ensures Done(trace + [e]) == Done(trace) + (if e.FlagSet? then [] else [e])
    ensures LastSpawn(trace + [e], i, start) == if e.Spawned? && e.child == i then e.at else LastSpawn(trace, i, start)
  {
    RejectAppend(trace, [e], IsFlag());
    assert Reject([e], IsFlag()) == (if e.FlagSet? then [] else [e]) by {
      assert [e][1..] == [];
    }
    assert (trace + [e])[..|trace|] == trace;
  }

  /** Every child's last restart is its last spawn. */
  ghost predicate Dated(st: State, start: real) {
    forall i: nat :: i < |st.children| ==> st.children[i].lastRestart == LastSpawn(st.trace, i, start)
  }

  /** Two states that differ only in the raised flag and who was told. */
  ghost predicate SameButFlag(a: State, b: State, start: real) {
    && b.children == a.children && Done(b.trace) == Done(a.trace)
    && forall i: nat :: LastSpawn(b.trace, i, start) == LastSpawn(a.trace, i, start)
  }

  lemma SignalledSame(st: State, signal: bool, start: real)
    ensures SameButFlag(st, Signalled(st, signal), start)
    ensures Signalled(st, signal).flag == (st.flag || signal)
  {
    forall i: nat ensures LastSpawn(Signalled(st, signal).trace, i, start) == LastSpawn(st.trace, i, start) {
      DoneExtend(st.trace, FlagSet, i, start);
    }
    DoneExtend(st.trace, FlagSet, 0, start);
  }

  /** An exit that asks for a restart: no shutdown yet, and not a one-shot success. */
  predicate Failing(st: State, i: nat, v: Visit)
    requires i < |st.children|
  {
    && !st.flag && !v.signalBefore && st.children[i].running && v.exit.Some?
    && (st.children[i].longRunning || v.exit.value != 0)
  }

  /** The window since the last spawn has passed. */
  predicate Outlasted(c: Config, st: State, i: nat, v: Visit, start: real) {
    v.now - LastSpawn(st.trace, i, start) > c.window
  }

  /** The number of the restart that is asked for: one more than were made since the last reset,
      or the first after a reset now. */
  function Attempt(c: Config, st: State, i: nat, v: Visit, start: real): nat {
    (if Outlasted(c, st, i, v, start) then 0 else SpawnsSince(st.trace, i)) + 1
  }

  /** What one visit does to child `i`. */
  ghost predicate Outcome(c: Config, st: State, i: nat, v: Visit, start: real, after: State)
    requires i < |st.children| == |after.children|
  {
    if Failing(st, i, v) then
      var n := Attempt(c, st, i, v, start);
      && Done(after.trace) == Done(st.trace) + (if Outlasted(c, st, i, v, start) then [Reset(i)] else [])
           + (if n <= c.maxRestarts then [Spawned(i, Min(Doubled(n - 1), 30), v.restartedAt)] else [])
      && after.children[i].running == (n <= c.maxRestarts)
      && after.flag == (n > c.maxRestarts || v.signalDuring)
    else
      && Done(after.trace) == Done(st.trace)
      && after.children[i].running == (st.children[i].running && v.exit.None?)
      && after.flag == (st.flag || v.signalBefore || v.signalDuring)
  }

  lemma {:induction false} DoubledGrows(m: nat, n: nat)
    requires m <= n
    ensures Doubled(m) <= Doubled(n)
  {
    if m < n {
      DoubledGrows(m, n - 1);
    }
  }

  lemma BackoffMeaning(n: nat)
    requires n > 0
    ensures Backoff(n) == Min(Doubled(n - 1), 30)
  {
    assert Doubled(4) == 16 && Doubled(5) == 32;
    if n > 5 {
      DoubledGrows(5, n - 1);
    } else {
      DoubledGrows(n - 1, 4);
    }
  }

  lemma BumpedDone(c: Config, st: State, i: nat, v: Visit, start: real)
    requires Inv(c, st) && Dated(st, start) && i < |st.children| && !st.flag
    ensures var b := Reaped(c, st, i, v);
            && b.children[i].restarts == Attempt(c, st, i, v, start)
            && Done(b.trace) == Done(st.trace) + (if Outlasted(c, st, i, v, start) then [Reset(i)] else [])
            && Dated(b, start)
  {
    var b := Reaped(c, st, i, v);
    DoneExtend(st.trace, Reset(i), i, start);
    forall j: nat | j < |b.children| ensures b.children[j].lastRestart == LastSpawn(b.trace, j, start) {
      DoneExtend(st.trace, Reset(i), j, start);
    }
    assert st.children[i].restarts <= Room(c);
  }

  lemma RespawnDone(st: State, i: nat, restarts: nat, at: real, start: real)
    requires i < |st.children| && restarts > 0 && Dated(st, start)
    ensures var after := Respawn(st, i, restarts, at);
            && Done(after.trace) == Done(st.trace) + [Spawned(i, Min(Doubled(restarts - 1), 30), at)]
            && Dated(after, start)
  {
    var e := Spawned(i, Backoff(restarts), at);
    var after := Respawn(st, i, restarts, at);
    BackoffMeaning(restarts);
    DoneExtend(st.trace, e, i, start);
    forall j: nat | j < |after.children| ensures after.children[j].lastRestart == LastSpawn(after.trace, j, start) {
      DoneExtend(st.trace, e, j, start);
    }
  }

  lemma VisitDone(c: Config, st: State, i: nat, v: Visit, start: real)
    requires Inv(c, st) && Dated(st, start) && i < |st.children|
    ensures Outcome(c, st, i, v, start, Visited(c, st, i, v)) && Dated(Visited(c, st, i, v), start)
  {
    if Failing(st, i, v) {
      FailureDone(c, st, i, v, start);
    } else {
      NothingDone(c, st, i, v, start);
    }
  }

  lemma NothingDone(c: Config, st: State, i: nat, v: Visit, start: real)
    requires Dated(st, start) && i < |st.children| && !Failing(st, i, v)
    ensures Outcome(c, st, i, v, start, Visited(c, st, i, v)) && Dated(Visited(c, st, i, v), start)
  {
    var st1 := Signalled(st, v.signalBefore);
    var st2 := if st1.children[i].running && v.exit.Some?
               then st1.(children := st1.children[i := st1.children[i].(running := false)]) else st1;
    assert Visited(c, st, i, v) == Signalled(st2, v.signalDuring);
    SignalledSame(st, v.signalBefore, start);
    SignalledSame(st2, v.signalDuring, start);
  }

  lemma FailureDone(c: Config, st: State, i: nat, v: Visit, start: real)
    requires Inv(c, st) && Dated(st, start) && i < |st.children| && Failing(st, i, v)
    ensures Outcome(c, st, i, v, start, Visited(c, st, i, v)) && Dated(Visited(c, st, i, v), start)
  {
    var b := Reaped(c, st, i, v);
    BumpedDone(c, st, i, v, start);
    RestartIs(c, st.(children := st.children[i := st.children[i].(running := false)]), i, v);
    if b.children[i].restarts > c.maxRestarts {
      SignalledSame(b, true, start);
      SignalledSame(Shutdown(b), v.signalDuring, start);
    } else {
      SignalledSame(b, v.signalDuring, start);
      RespawnDone(Signalled(b, v.signalDuring), i, b.children[i].restarts, v.restartedAt, start);
    }
  }

  // ---------------------------------------------------------------------------------------
  // Over runs.

  lemma {:induction false} VisitsDated(c: Config, st: State, visits: seq<Visit>, start: real)
    requires Inv(c, st) && Dated(st, start) && |visits| <= |st.children|
    ensures Dated(VisitedUpTo(c, st, visits), start)
  {
    if visits != [] {
      var before := visits[..|visits| - 1];
      VisitsDated(c, st, before, start);
      VisitsKeep(c, st, before);
      VisitDone(c, VisitedUpTo(c, st, before), |visits| - 1, visits[|visits| - 1], start);
    }
  }

  lemma {:induction false} RunDated(c: Config, kinds: seq<bool>, at: real, passes: seq<Pass>)
    requires Fitting(Started(kinds, at), passes)
    ensures Dated(PassedAll(c, Started(kinds, at), passes), at)
  {
    if passes != [] {
      var before, p := passes[..|passes| - 1], passes[|passes| - 1];
      RunDated(c, kinds, at, before);
      RunsKeep(c, kinds, at, before);
      var st := PassedAll(c, Started(kinds, at), before);
      VisitsDated(c, st, p.visits, at);
      SignalledSame(VisitedUpTo(c, st, p.visits), p.signalAtEnd, at);
    }
  }

  /** The state of a run in the middle of a pass. */
  function Reached(c: Config, kinds: seq<bool>, at: real, passes: seq<Pass>, visits: seq<Visit>): (st: State)
    requires Fitting(Started(kinds, at), passes) && |visits| <= |kinds|
    ensures |st.children| == |kinds|
  {
    VisitedUpTo(c, PassedAll(c, Started(kinds, at), passes), visits)
  }

  /** At every visit of every run: the recorded last restart is the time of the last spawn; a
      failing exit resets the counter exactly when the window has passed since then, and leads to
      a restart with the back-off of its number exactly when that is within the limit, otherwise
      the flag goes up and the child stays down; no other exit does anything. */
  lemma VisitInRun(c: Config, kinds: seq<bool>, at: real, passes: seq<Pass>, visits: seq<Visit>, v: Visit)
    requires Fitting(Started(kinds, at), passes) && |visits| < |kinds|
    ensures var st := Reached(c, kinds, at, passes, visits);
            && st.children[|visits|].longRunning == kinds[|visits|]
            && st.children[|visits|].lastRestart == LastSpawn(st.trace, |visits|, at)
            && Outcome(c, st, |visits|, v, at, Visited(c, st, |visits|, v))
  {
    RunsKeep(c, kinds, at, passes);
    RunDated(c, kinds, at, passes);
    RunKinds(c, kinds, at, passes);
    var st := PassedAll(c, Started(kinds, at), passes);
    VisitsKeep(c, st, visits);
    VisitsDated(c, st, visits, at);
    KindsStay(c, st, visits);
    VisitDone(c, Reached(c, kinds, at, passes, visits), |visits|, v, at);
  }

  // ---------------------------------------------------------------------------------------
  // Crash loops.

  /** If child `i` fails in these visits, it is within the window of its last spawn. */
  ghost predicate Prompt(c: Config, st: State, visits: seq<Visit>, i: nat, start: real)
    requires |visits| <= |st.children|
  {
    i < |visits| ==>
      var at := VisitedUpTo(c, st, visits[..i]);
      Failing(at, i, visits[i]) ==> !Outlasted(c, at, i, visits[i], start)
  }

  ghost predicate AlwaysPrompt(c: Config, st: State, passes: seq<Pass>, i: nat, start: real)
    requires Fitting(st, passes)
  {
    passes == [] ||
    (var before := passes[..|passes| - 1];
     AlwaysPrompt(c, st, before, i, start) && Prompt(c, PassedAll(c, st, before), passes[|passes| - 1].visits, i, start))
  }

  /** All respawns of child `i`. */
  function Spawns(trace: seq<Event>, i: nat): nat {
    if trace == [] then 0
    else
      var last := trace[|trace| - 1];
      Spawns(trace[..|trace| - 1], i) + (if last.Spawned? && last.child == i then 1 else 0)
  }

  lemma {:induction false} NeverReset(trace: seq<Event>, i: nat)
    requires Reset(i) !in trace
    ensures SpawnsSince(trace, i) == Spawns(trace, i)
  {
    if trace != [] {
      NeverReset(trace[..|trace| - 1], i);
      assert trace[|trace| - 1] in trace;
    }
  }

  lemma DoneResets(trace: seq<Event>, i: nat)
    ensures Reset(i) in trace <==> Reset(i) in Done(trace)
  {
    RejectMembers(trace, IsFlag());
  }

  /** Only a failing visit past the window records a reset, of the child visited. */
  lemma VisitResets(c: Config, st: State, k: nat, v: Visit, start: real, i: nat)
    requires Inv(c, st) && Dated(st, start) && k < |st.children|
    ensures Reset(i) in Visited(c, st, k, v).trace ==>
              Reset(i) in st.trace || (i == k && Failing(st, k, v) && Outlasted(c, st, k, v, start))
  {
    VisitDone(c, st, k, v, start);
    DoneResets(st.trace, i);
    DoneResets(Visited(c, st, k, v).trace, i);
  }

  lemma PromptEarlier(c: Config, st: State, visits: seq<Visit>, i: nat, start: real)
    requires visits != [] && |visits| <= |st.children| && Prompt(c, st, visits, i, start)
    ensures Prompt(c, st, visits[..|visits| - 1], i, start)
  {
    var before := visits[..|visits| - 1];
    if i < |before| {
      assert before[..i] == visits[..i];
    }
  }

  lemma {:induction false} PromptVisits(c: Config, st: State, visits: seq<Visit>, i: nat, start: real)
    requires Inv(c, st) && Dated(st, start) && |visits| <= |st.children|
    requires Prompt(c, st, visits, i, start) && Reset(i) !in st.trace
    ensures Reset(i) !in VisitedUpTo(c, st, visits).trace
  {
    if visits != [] {
      var before, k := visits[..|visits| - 1], |visits| - 1;
      PromptEarlier(c, st, visits, i, start);
      PromptVisits(c, st, before, i, start);
      VisitsKeep(c, st, before);
      VisitsDated(c, st, before, start);
      VisitResets(c, VisitedUpTo(c, st, before), k, visits[k], start, i);
    }
  }

  lemma {:induction false} PromptRun(c: Config, kinds: seq<bool>, at: real, passes: seq<Pass>, i: nat)
    requires Fitting(Started(kinds, at), passes) && AlwaysPrompt(c, Started(kinds, at), passes, i, at)
    ensures Reset(i) !in PassedAll(c, Started(kinds, at), passes).trace
  {
    if passes != [] {
      var before, p := passes[..|passes| - 1], passes[|passes| - 1];
      PromptRun(c, kinds, at, before, i);
      RunsKeep(c, kinds, at, before);
      RunDated(c, kinds, at, before);
      var st := PassedAll(c, Started(kinds, at), before);
      PromptVisits(c, st, p.visits, i, at);
      SignalledSame(VisitedUpTo(c, st, p.visits), p.signalAtEnd, at);
      DoneResets(VisitedUpTo(c, st, p.visits).trace, i);
      DoneResets(PassedAll(c, Started(kinds, at), passes).trace, i);
    }
  }

  /** A child that always fails within the window of its last spawn is respawned at most the
      maximal number of times in all, and its next such failure raises the flag and leaves it
      down. */
  lemma CrashLoopGivenUp(c: Config, kinds: seq<bool>, at: real, passes: seq<Pass>, visits: seq<Visit>, v: Visit)
    requires Fitting(Started(kinds, at), passes) && |visits| < |kinds|
    requires AlwaysPrompt(c, Started(kinds, at), passes, |visits|, at)
    ensures var i, st := |visits|, Reached(c, kinds, at, passes, visits);
            && Spawns(st.trace, i) <= Room(c)
            && (Failing(st, i, v) && !Outlasted(c, st, i, v, at) && Spawns(st.trace, i) == Room(c) ==>
                  var after := Visited(c, st, i, v);
                  after.flag && !after.children[i].running && Spawns(after.trace, i) == Room(c))
  {
    var i := |visits|;
    var start, st := PassedAll(c, Started(kinds, at), passes), Reached(c, kinds, at, passes, visits);
    RunsKeep(c, kinds, at, passes);
    RunDated(c, kinds, at, passes);
    PromptRun(c, kinds, at, passes, i);
    PromptVisits(c, start, visits, i, at);
    VisitsKeep(c, start, visits);
    NeverReset(st.trace, i);
    VisitInRun(c, kinds, at, passes, visits, v);
    DoneSpawns(st.trace, i);
    DoneSpawns(Visited(c, st, i, v).trace, i);
  }

  lemma {:induction false} DoneSpawns(trace: seq<Event>, i: nat)
    ensures Spawns(Done(trace), i) == Spawns(trace, i)
  {
    if trace != [] {
      var init, last := trace[..|trace| - 1], trace[|trace| - 1];
      DoneSpawns(init, i);
      DoneExtend(init, last, i, 0.0);
      assert trace == init + [last];
      SpawnsExtend(Done(init), last, i);
      assert Done(init) + [] == Done(init);
    }
  }

  lemma SpawnsExtend(trace: seq<Event>, e: Event, i: nat)
    ensures Spawns(trace + [e], i) == Spawns(trace, i) + (if e.Spawned? && e.child == i then 1 else 0)
  {
    assert (trace + [e])[..|trace|] == trace;
  }
}
