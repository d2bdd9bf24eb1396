/** docker/tam_supervisor.py:200-274: what every run of the supervisor keeps. */
module SupervisorSafety {
  import opened Sequences
  import opened Supervisor

  function Room(c: Config): nat { if c.maxRestarts < 0 then 0 else c.maxRestarts }

  /** Respawns of child `i` since its counter was last reset. */
  function SpawnsSince(trace: seq<Event>, i: nat): nat {
    if trace == [] then 0
    else
      var last, before := trace[|trace| - 1], SpawnsSince(trace[..|trace| - 1], i);
      if last == Reset(i) then 0
      else if last.Spawned? && last.child == i then before + 1
      else before
  }

  /** At no point of the trace had a child been respawned more often than allowed. */
  ghost predicate Limited(c: Config, trace: seq<Event>) {
    trace == [] || (Limited(c, trace[..|trace| - 1]) && forall i: nat :: SpawnsSince(trace, i) <= Room(c))
  }

  /** The children spawned after the flag was raised, in order. */
  function LateSpawns(trace: seq<Event>): seq<nat> {
    if trace == [] then []
    else
      var last, init := trace[|trace| - 1], trace[..|trace| - 1];
      LateSpawns(init) + (if last.Spawned? && FlagSet in init then [last.child] else [])
  }

  lemma TraceStep(c: Config, trace: seq<Event>, e: Event)
    ensures forall i: nat :: SpawnsSince(trace + [e], i) ==
              if e == Reset(i) then 0 else SpawnsSince(trace, i) + (if e.Spawned? && e.child == i then 1 else 0)
    ensures LateSpawns(trace + [e]) == LateSpawns(trace) + (if e.Spawned? && FlagSet in trace then [e.child] else [])
    ensures FlagSet in trace + [e] <==> FlagSet in trace || e.FlagSet?
    ensures Limited(c, trace) && (forall i: nat :: SpawnsSince(trace + [e], i) <= Room(c)) ==> Limited(c, trace + [e])
  {
    assert (trace + [e])[..|trace|] == trace;
  }

  // ---------------------------------------------------------------------------------------
  // The invariant, clause by clause.

  /** The trace records the raising of the flag. */
  ghost predicate FlagRecorded(st: State) { st.flag <==> FlagSet in st.trace }

  /** Until shutdown every long-running child is running. */
  ghost predicate AllUp(st: State) {
    !st.flag ==> forall i :: 0 <= i < |st.children| && st.children[i].longRunning ==> st.children[i].running
  }

  /** Each counter counts the respawns since its reset, until the one that exceeds the limit. */
  ghost predicate Counted(c: Config, st: State) {
    forall i: nat :: i < |st.children| ==>
      && SpawnsSince(st.trace, i) <= Room(c)
      && (st.children[i].restarts <= Room(c) ==> SpawnsSince(st.trace, i) == st.children[i].restarts)
      && (st.children[i].restarts > Room(c) ==> st.flag)
  }

  ghost predicate OnlyChildren(st: State) {
    forall i: nat :: i >= |st.children| ==> SpawnsSince(st.trace, i) == 0
  }

  /** At most one spawn follows the flag, and every running child but that one was told to stop. */
  ghost predicate OneLate(st: State) {
    && |LateSpawns(st.trace)| <= (if st.flag then 1 else 0)
    && (st.flag ==> forall i: nat :: i < |st.children| && st.children[i].running ==> i in st.told || i in LateSpawns(st.trace))
  }

  ghost predicate Inv(c: Config, st: State) {
    FlagRecorded(st) && AllUp(st) && Counted(c, st) && OnlyChildren(st) && Limited(c, st.trace) && OneLate(st)
  }

  lemma {:induction false} ShutdownKeeps(c: Config, st: State)
    requires Inv(c, st)
    ensures Inv(c, Shutdown(st))
  {
    TraceStep(c, st.trace, FlagSet);
    RunningMeaning(st.children);
  }

  lemma {:induction false} SignalledKeeps(c: Config, st: State, signal: bool)
    requires Inv(c, st)
    ensures Inv(c, Signalled(st, signal))
  {
    if signal {
      ShutdownKeeps(c, st);
    }
  }

  /** The counter bookkeeping of a restart, before the decision. */
  function Bumped(c: Config, st: State, i: nat, v: Visit): State
    requires i < |st.children|
  {
    var child := st.children[i];
    st.(children := st.children[i := child.(restarts := Recounted(c, child, v.now) + 1)],
        trace := if v.now - child.lastRestart > c.window then st.trace + [Reset(i)] else st.trace)
  }

  /** All clauses hold after the bookkeeping, except that child `i` is down and its counter is
      one ahead. */
  ghost predicate Pending(c: Config, st: State, i: nat)
    requires i < |st.children|
  {
    && !st.flag && FlagSet !in st.trace && LateSpawns(st.trace) == [] && Limited(c, st.trace) && OnlyChildren(st)
    && !st.children[i].running && st.children[i].restarts == SpawnsSince(st.trace, i) + 1 <= Room(c) + 1
    && (forall j: nat :: j < |st.children| && j != i ==>
          && SpawnsSince(st.trace, j) == st.children[j].restarts <= Room(c)
          && (st.children[j].longRunning ==> st.children[j].running))
  }

  lemma BumpPends(c: Config, st: State, i: nat, v: Visit)
    requires Inv(c, st) && i < |st.children| && !st.flag
    ensures Pending(c, Bumped(c, st.(children := st.children[i := st.children[i].(running := false)]), i, v), i)
  {
    TraceStep(c, st.trace, Reset(i));
    assert st.children[i].restarts <= Room(c);
  }

  lemma {:induction false} GiveUpKeeps(c: Config, st: State, i: nat)
    requires i < |st.children| && Pending(c, st, i) && st.children[i].restarts > c.maxRestarts
    ensures Inv(c, Shutdown(st))
  {
    TraceStep(c, st.trace, FlagSet);
    RunningMeaning(st.children);
    var after := Shutdown(st);
    assert after.trace == st.trace + [FlagSet] && after.children == st.children;
    forall k: nat ensures SpawnsSince(after.trace, k) == SpawnsSince(st.trace, k) {}
  }

  /** The same with the flag possibly raised by a signal during the back-off. */
  ghost predicate Waiting(c: Config, st: State, i: nat)
    requires i < |st.children|
  {
    && FlagRecorded(st) && LateSpawns(st.trace) == [] && Limited(c, st.trace) && OnlyChildren(st)
    && st.children[i].restarts == SpawnsSince(st.trace, i) + 1
    && (forall j: nat :: j < |st.children| && j != i ==>
          && SpawnsSince(st.trace, j) == st.children[j].restarts <= Room(c)
          && (st.children[j].longRunning ==> st.children[j].running)
          && (st.flag && st.children[j].running ==> j in st.told))
  }

  lemma {:induction false} SignalWaits(c: Config, st: State, i: nat, signal: bool)
    requires i < |st.children| && Pending(c, st, i)
    ensures Waiting(c, Signalled(st, signal), i)
  {
    if signal {
      var after := Shutdown(st);
      TraceStep(c, st.trace, FlagSet);
      RunningMeaning(st.children);
      assert after.trace == st.trace + [FlagSet] && after.children == st.children;
      forall k: nat ensures SpawnsSince(after.trace, k) == SpawnsSince(st.trace, k) {}
    }
  }

  lemma RespawnKeeps(c: Config, st: State, i: nat, at: real, signal: bool)
    requires i < |st.children| && Pending(c, st, i) && st.children[i].restarts <= c.maxRestarts
    ensures Inv(c, Respawn(Signalled(st, signal), i, st.children[i].restarts, at))
  {
    SignalWaits(c, st, i, signal);
  }

  lemma RestartIs(c: Config, st: State, i: nat, v: Visit)
    requires i < |st.children| && !st.children[i].running
    ensures var b := Bumped(c, st, i, v);
            Restart(c, st, i, v) ==
              if b.children[i].restarts > c.maxRestarts then Signalled(Shutdown(b), v.signalDuring)
              else Respawn(Signalled(b, v.signalDuring), i, b.children[i].restarts, v.restartedAt)
  {
  }

  lemma VisitKeeps(c: Config, st: State, i: nat, v: Visit)
    requires Inv(c, st) && i < |st.children|
    ensures Inv(c, Visited(c, st, i, v))
  {
    var st1 := Signalled(st, v.signalBefore);
    SignalledKeeps(c, st, v.signalBefore);
    var child := st1.children[i];
    if !child.running || v.exit.None? {
      SignalledKeeps(c, st1, v.signalDuring);
    } else {
      var st2 := st1.(children := st1.children[i := child.(running := false)]);
      if st1.flag || (!child.longRunning && v.exit.value == 0) {
        SignalledKeeps(c, st2, v.signalDuring);
      } else {
        BumpPends(c, st1, i, v);
        RestartIs(c, st2, i, v);
        var b := Bumped(c, st2, i, v);
        if b.children[i].restarts > c.maxRestarts {
          GiveUpKeeps(c, b, i);
          SignalledKeeps(c, Shutdown(b), v.signalDuring);
        } else {
          RespawnKeeps(c, b, i, v.restartedAt, v.signalDuring);
        }
      }
    }
  }

  lemma {:induction false} VisitsKeep(c: Config, st: State, visits: seq<Visit>)
    requires Inv(c, st) && |visits| <= |st.children|
    ensures Inv(c, VisitedUpTo(c, st, visits))
  {
    if visits != [] {
      VisitsKeep(c, st, visits[..|visits| - 1]);
      VisitKeeps(c, VisitedUpTo(c, st, visits[..|visits| - 1]), |visits| - 1, visits[|visits| - 1]);
    }
  }

  /** The invariant holds at the head of every iteration of every run. */
  lemma {:induction false} RunsKeep(c: Config, kinds: seq<bool>, at: real, passes: seq<Pass>)
    requires Fitting(Started(kinds, at), passes)
    ensures Inv(c, PassedAll(c, Started(kinds, at), passes))
  {
    if passes == [] {
    } else {
      var before := passes[..|passes| - 1];
      RunsKeep(c, kinds, at, before);
      var st, p := PassedAll(c, Started(kinds, at), before), passes[|passes| - 1];
      VisitsKeep(c, st, p.visits);
      SignalledKeeps(c, VisitedUpTo(c, st, p.visits), p.signalAtEnd);
    }
  }

  // ---------------------------------------------------------------------------------------
  // The promises.

  lemma {:induction false} KindsStay(c: Config, st: State, visits: seq<Visit>)
    requires |visits| <= |st.children|
    ensures forall i :: 0 <= i < |st.children| ==> VisitedUpTo(c, st, visits).children[i].longRunning == st.children[i].longRunning
  {
    if visits != [] {
      KindsStay(c, st, visits[..|visits| - 1]);
    }
  }

  lemma {:induction false} RunKinds(c: Config, kinds: seq<bool>, at: real, passes: seq<Pass>)
    requires Fitting(Started(kinds, at), passes)
    ensures forall i :: 0 <= i < |kinds| ==> PassedAll(c, Started(kinds, at), passes).children[i].longRunning == kinds[i]
  {
    if passes != [] {
      var before := passes[..|passes| - 1];
      RunKinds(c, kinds, at, before);
      KindsStay(c, PassedAll(c, Started(kinds, at), before), passes[|passes| - 1].visits);
    }
  }

  /** With a long-running service the loop can only end after shutdown was requested, so it
      returns 0. */
  lemma ExitOnlyAfterShutdown(c: Config, kinds: seq<bool>, at: real, passes: seq<Pass>)
    requires Fitting(Started(kinds, at), passes) && true in kinds
    requires Running(PassedAll(c, Started(kinds, at), passes).children) == {}
    ensures PassedAll(c, Started(kinds, at), passes).flag
  {
    var st := PassedAll(c, Started(kinds, at), passes);
    RunsKeep(c, kinds, at, passes);
    RunKinds(c, kinds, at, passes);
    RunningMeaning(st.children);
    var i: nat :| i < |kinds| && kinds[i];
    assert i !in Running(st.children);
  }

  /** Between two resets of its counter a service is respawned at most MAX_RESTARTS times, at
      every moment of every run. */
  lemma RestartsLimited(c: Config, kinds: seq<bool>, at: real, passes: seq<Pass>, n: nat, i: nat)
    requires Fitting(Started(kinds, at), passes) && n <= |PassedAll(c, Started(kinds, at), passes).trace|
    ensures SpawnsSince(PassedAll(c, Started(kinds, at), passes).trace[..n], i) <= Room(c)
  {
    RunsKeep(c, kinds, at, passes);
    LimitedPrefix(c, PassedAll(c, Started(kinds, at), passes).trace, n, i);
  }

  lemma {:induction false} LimitedPrefix(c: Config, trace: seq<Event>, n: nat, i: nat)
    requires Limited(c, trace) && n <= |trace|
    ensures SpawnsSince(trace[..n], i) <= Room(c)
    decreases |trace|
  {
    if n < |trace| {
      assert trace[..|trace| - 1][..n] == trace[..n];
      LimitedPrefix(c, trace[..|trace| - 1], n, i);
    } else {
      assert trace[..n] == trace;
    }
  }

  /** However the signals fall, at most one spawn follows the raising of the flag, and every
      running child other than the one it started has been told to stop. */
  lemma AtMostOneLateSpawn(c: Config, kinds: seq<bool>, at: real, passes: seq<Pass>)
    requires Fitting(Started(kinds, at), passes)
    ensures var st := PassedAll(c, Started(kinds, at), passes);
            && |LateSpawns(st.trace)| <= 1
            && (st.flag ==> forall i :: i in Running(st.children) ==> i in st.told || LateSpawns(st.trace) == [i])
  {
    RunsKeep(c, kinds, at, passes);
    RunningMeaning(PassedAll(c, Started(kinds, at), passes).children);
  }

  lemma {:induction false} VisitsOnlyStop(c: Config, st: State, visits: seq<Visit>)
    requires st.flag && |visits| <= |st.children|
    ensures var after := VisitedUpTo(c, st, visits);
            && after.flag && after.trace == st.trace
            && (forall i :: 0 <= i < |st.children| ==> after.children[i].running ==> st.children[i].running)
            && (forall i :: 0 <= i < |visits| && visits[i].exit.Some? ==> !after.children[i].running)
  {
    if visits != [] {
      VisitsOnlyStop(c, st, visits[..|visits| - 1]);
    }
  }

  /** Once the flag is up at the head of an iteration nothing is spawned any more and the set of
      running children only shrinks. */
  lemma OnlyShrinks(c: Config, st: State, p: Pass)
    requires st.flag && |p.visits| == |st.children|
    ensures var after := Passed(c, st, p);
            after.flag && after.trace == st.trace && Running(after.children) <= Running(st.children)
  {
    VisitsOnlyStop(c, st, p.visits);
    RunningMeaning(st.children);
    RunningMeaning(Passed(c, st, p).children);
  }

  /** The loop ends in the first pass after shutdown that finds every child gone. */
  lemma EndsWhenAllExit(c: Config, st: State, p: Pass)
    requires st.flag && |p.visits| == |st.children| && forall i :: 0 <= i < |p.visits| ==> p.visits[i].exit.Some?
    ensures Running(Passed(c, st, p).children) == {} && Passed(c, st, p).flag
  {
    VisitsOnlyStop(c, st, p.visits);
    RunningMeaning(Passed(c, st, p).children);
  }

  /** The child is about to be restarted: it exited, not as a one-shot success, shutdown was not
      requested, and the limit is not exceeded. */
  predicate ToRespawn(c: Config, st: State, i: nat, v: Visit)
    requires i < |st.children|
  {
    var child := st.children[i];
    && !st.flag && !v.signalBefore && child.running && v.exit.Some?
    && (child.longRunning || v.exit.value != 0)
    && Recounted(c, child, v.now) + 1 <= c.maxRestarts
  }

  /** The state in which a restart of child `i` is decided. */
  function Reaped(c: Config, st: State, i: nat, v: Visit): State
    requires i < |st.children|
  {
    Bumped(c, st.(children := st.children[i := st.children[i].(running := false)]), i, v)
  }

  lemma ReapedTrace(c: Config, st: State, i: nat, v: Visit)
    requires FlagRecorded(st) && i < |st.children|
    ensures var b := Reaped(c, st, i, v);
            && FlagRecorded(b) && LateSpawns(b.trace) == LateSpawns(st.trace) && b.flag == st.flag
            && |b.children| == |st.children| && b.children[i].restarts == Recounted(c, st.children[i], v.now) + 1
  {
    TraceStep(c, st.trace, Reset(i));
  }

  lemma RespawnVisit(c: Config, st: State, i: nat, v: Visit)
    requires FlagRecorded(st) && i < |st.children| && ToRespawn(c, st, i, v)
    ensures var after := Visited(c, st, i, v);
            && LateSpawns(after.trace) == LateSpawns(st.trace) + (if v.signalDuring then [i] else [])
            && after.children[i].running && i !in after.told && after.flag == v.signalDuring
  {
    var st2 := st.(children := st.children[i := st.children[i].(running := false)]);
    ReapedTrace(c, st, i, v);
    RestartIs(c, st2, i, v);
  }

  /** Exactly when a visit ends in a late spawn: a signal is handled during the back-off of a child that
      is about to be restarted. The fresh child is running and was not told to stop. */
  lemma LateVisitExactly(c: Config, st: State, i: nat, v: Visit)
    requires FlagRecorded(st) && i < |st.children|
    ensures var after := Visited(c, st, i, v);
            && (LateSpawns(after.trace) != LateSpawns(st.trace) <==> ToRespawn(c, st, i, v) && v.signalDuring)
            && (ToRespawn(c, st, i, v) && v.signalDuring ==>
                  after.flag && after.children[i].running && i !in after.told && LateSpawns(after.trace) == LateSpawns(st.trace) + [i])
  {
    if ToRespawn(c, st, i, v) {
      RespawnVisit(c, st, i, v);
      assert |LateSpawns(st.trace) + [i]| == |LateSpawns(st.trace)| + 1;
    }
  }

  /** Some of the visits handled a signal during the back-off of a child about to be restarted. */
  predicate LateVisit(c: Config, st: State, visits: seq<Visit>)
    requires |visits| <= |st.children|
  {
    visits != [] &&
    var i, before := |visits| - 1, visits[..|visits| - 1];
    LateVisit(c, st, before) || (ToRespawn(c, VisitedUpTo(c, st, before), i, visits[i]) && visits[i].signalDuring)
  }

  predicate LatePass(c: Config, st: State, passes: seq<Pass>)
    requires Fitting(st, passes)
  {
    passes != [] &&
    var before := passes[..|passes| - 1];
    LatePass(c, st, before) || LateVisit(c, PassedAll(c, st, before), passes[|passes| - 1].visits)
  }

  lemma {:induction false} LateInVisits(c: Config, st: State, visits: seq<Visit>)
    requires Inv(c, st) && |visits| <= |st.children|
    ensures LateSpawns(VisitedUpTo(c, st, visits).trace) != [] <==>
            LateSpawns(st.trace) != [] || LateVisit(c, st, visits)
  {
    if visits != [] {
      var i, before := |visits| - 1, visits[..|visits| - 1];
      LateInVisits(c, st, before);
      VisitsKeep(c, st, before);
      LateOrNot(c, VisitedUpTo(c, st, before), i, visits[i]);
    }
  }

  lemma LateOrNot(c: Config, st: State, i: nat, v: Visit)
    requires FlagRecorded(st) && i < |st.children|
    ensures LateSpawns(Visited(c, st, i, v).trace) != [] <==>
            LateSpawns(st.trace) != [] || (ToRespawn(c, st, i, v) && v.signalDuring)
  {
    LateVisitExactly(c, st, i, v);
  }

  /** Exactly when a run has a late spawn: in some visit of it a signal is handled during the
      back-off of a child about to be restarted. */
  lemma {:induction false} LateSpawnExactly(c: Config, kinds: seq<bool>, at: real, passes: seq<Pass>)
    requires Fitting(Started(kinds, at), passes)
    ensures LateSpawns(PassedAll(c, Started(kinds, at), passes).trace) != [] <==> LatePass(c, Started(kinds, at), passes)
  {
    if passes != [] {
      var before, p := passes[..|passes| - 1], passes[|passes| - 1];
      LateSpawnExactly(c, kinds, at, before);
      RunsKeep(c, kinds, at, before);
      var st := PassedAll(c, Started(kinds, at), before);
      LateInVisits(c, st, p.visits);
      VisitsKeep(c, st, p.visits);
    }
  }
}
