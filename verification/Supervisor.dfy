/** docker/tam_supervisor.py:200-274: the reap, restart and shutdown loop. Exits, clock readings
    and the moments at which signals are handled are arbitrary inputs. */
module Supervisor {
  import opened Sequences

  datatype Child = Child(longRunning: bool, running: bool, restarts: nat, lastRestart: real)

  datatype Event = FlagSet | Reset(child: nat) | Spawned(child: nat, backoff: nat, at: real)

  datatype Config = Config(maxRestarts: int, window: real)

  /** `told` are the children that the last signals found and asked to stop; a child spawned
      later has not been asked. */
  datatype State = State(children: seq<Child>, flag: bool, told: set<nat>, trace: seq<Event>)

  /** What the loop sees while it looks at one child: the polled exit code, the clock before and
      after the back-off, and whether a signal is handled before the shutdown check or between
      that check and the end of the visit. */
  datatype Visit = Visit(exit: Option<int>, now: real, restartedAt: real, signalBefore: bool, signalDuring: bool)

  datatype Pass = Pass(visits: seq<Visit>, signalAtEnd: bool)

  function Running(children: seq<Child>): set<nat> {
    if children == [] then {}
    else
      var last := |children| - 1;
      Running(children[..last]) + (if children[last].running then {last} else {})
  }

  /** A signal, or giving up on a child: raise the flag and tell the running children. */
  function Shutdown(st: State): State {
    st.(flag := true, told := st.told + Running(st.children),
        trace := if st.flag then st.trace else st.trace + [FlagSet])
  }

  function Signalled(st: State, signal: bool): State { if signal then Shutdown(st) else st }

  function Backoff(restarts: nat): nat
    requires restarts > 0
  {
    if restarts > 5 then 30 else Doubled(restarts - 1)
  }

  function Doubled(n: nat): nat { if n == 0 then 1 else 2 * Doubled(n - 1) }

  /** The counter after the window check, before this restart is counted. */
  function Recounted(c: Config, child: Child, now: real): nat {
    if now - child.lastRestart > c.window then 0 else child.restarts
  }

  function Respawn(st: State, i: nat, restarts: nat, at: real): State
    requires i < |st.children| && restarts > 0
  {
    st.(children := st.children[i := st.children[i].(running := true, restarts := restarts, lastRestart := at)],
        told := st.told - {i},
        trace := st.trace + [Spawned(i, Backoff(restarts), at)])
  }

  function Restart(c: Config, st: State, i: nat, v: Visit): State
    requires i < |st.children|
  {
    var child := st.children[i];
    var reset := v.now - child.lastRestart > c.window;
    var counted := Recounted(c, child, v.now) + 1;
    var st1 := st.(children := st.children[i := child.(restarts := counted)],
                   trace := if reset then st.trace + [Reset(i)] else st.trace);
    if counted > c.maxRestarts then Signalled(Shutdown(st1), v.signalDuring)
    else Respawn(Signalled(st1, v.signalDuring), i, counted, v.restartedAt)
  }

  /** One iteration of the inner loop. */
  function Visited(c: Config, st: State, i: nat, v: Visit): (r: State)
    requires i < |st.children|
    ensures |r.children| == |st.children|
    ensures forall j :: 0 <= j < |st.children| && j != i ==> r.children[j] == st.children[j]
  {
    var st1 := Signalled(st, v.signalBefore);
    if !st1.children[i].running || v.exit.None? then Signalled(st1, v.signalDuring)
    else
      var st2 := st1.(children := st1.children[i := st1.children[i].(running := false)]);
      if st2.flag || (!st2.children[i].longRunning && v.exit.value == 0) then Signalled(st2, v.signalDuring)
      else Restart(c, st2, i, v)
  }

  function VisitedUpTo(c: Config, st: State, visits: seq<Visit>): (r: State)
    requires |visits| <= |st.children|
    ensures |r.children| == |st.children|
  {
    if visits == [] then st
    else Visited(c, VisitedUpTo(c, st, visits[..|visits| - 1]), |visits| - 1, visits[|visits| - 1])
  }

  /** A whole pass over the children, and the signal handled before the exit check, if any. */
  function Passed(c: Config, st: State, p: Pass): (r: State)
    requires |p.visits| == |st.children|
    ensures |r.children| == |st.children|
  {
    Signalled(VisitedUpTo(c, st, p.visits), p.signalAtEnd)
  }

  /** A run of passes from the state right after start-up. */
  function Started(kinds: seq<bool>, at: real): State {
    State(seq(|kinds|, i requires 0 <= i < |kinds| => Child(kinds[i], true, 0, at)), false, {}, [])
  }

  /** The state after some passes; the loop has not returned as long as a child was running. */
  function PassedAll(c: Config, st: State, passes: seq<Pass>): (r: State)
    requires Fitting(st, passes)
    ensures |r.children| == |st.children|
  {
    if passes == [] then st
    else Passed(c, PassedAll(c, st, passes[..|passes| - 1]), passes[|passes| - 1])
  }

  predicate Fitting(st: State, passes: seq<Pass>) {
    forall n :: 0 <= n < |passes| ==> |passes[n].visits| == |st.children|
  }

  /** Some child was running after every pass, so that the loop went on. */
  ghost predicate Busy(c: Config, st: State, passes: seq<Pass>)
    requires Fitting(st, passes)
  {
    passes == [] || (Busy(c, st, passes[..|passes| - 1]) && Running(PassedAll(c, st, passes).children) != {})
  }

  // ---------------------------------------------------------------------------------------
  // The program.

  class Loop {
    const config: Config
    var children: seq<Child>
    var shutdownRequested: bool
    ghost var told: set<nat>
    ghost var trace: seq<Event>

    ghost function Current(): State
      reads this
    {
      State(children, shutdownRequested, told, trace)
    }

    constructor (config: Config, kinds: seq<bool>, at: real)
      ensures Current() == Started(kinds, at) && this.config == config
    {
      this.config := config;
      children := seq(|kinds|, i requires 0 <= i < |kinds| => Child(kinds[i], true, 0, at));
      shutdownRequested, told, trace := false, {}, [];
    }

    /** The signal handler. */
    method HandleSignal()
      modifies this
      ensures Current() == Shutdown(old(Current()))
    {
      trace := if shutdownRequested then trace else trace + [FlagSet];
      shutdownRequested := true;
      told := told + Running(children);
    }

    method VisitChild(i: nat, v: Visit) returns (alive: bool)
      requires i < |children|
      modifies this
      ensures Current() == Visited(config, old(Current()), i, v)
      ensures alive == children[i].running
    {
      if v.signalBefore {
        HandleSignal();
      }
      if !children[i].running || v.exit.None? {
        alive := children[i].running;
        if v.signalDuring {
          HandleSignal();
        }
        return;
      }
      children := children[i := children[i].(running := false)];
      if shutdownRequested || (!children[i].longRunning && v.exit.value == 0) {
        if v.signalDuring {
          HandleSignal();
        }
        return false;
      }
      alive := RestartChild(i, v);
    }

    method RestartChild(i: nat, v: Visit) returns (alive: bool)
      requires i < |children| && !children[i].running
      modifies this
      ensures Current() == Restart(config, old(Current()), i, v)
      ensures alive == children[i].running
    {
      if v.now - children[i].lastRestart > config.window {
        children := children[i := children[i].(restarts := 0)];
        trace := trace + [Reset(i)];
      }
      children := children[i := children[i].(restarts := children[i].restarts + 1)];
      assert children == old(children)[i := old(children)[i].(restarts := children[i].restarts)];
      if children[i].restarts > config.maxRestarts {
        HandleSignal();
        if v.signalDuring {
          HandleSignal();
        }
        return false;
      }
      var backoff := Backoff(children[i].restarts);
      if v.signalDuring {
        HandleSignal();
      }
      children := children[i := children[i].(running := true, lastRestart := v.restartedAt)];
      told := told - {i};
      trace := trace + [Spawned(i, backoff, v.restartedAt)];
      return true;
    }

    /** One pass over the children; `alive` is the count the exit check looks at. */
    method ReapPass(p: Pass) returns (alive: nat)
      requires |p.visits| == |children|
      modifies this
      ensures Current() == Passed(config, old(Current()), p)
      ensures alive == |Running(children)|
    {
      alive := 0;
      for i := 0 to |children|
        invariant |children| == |old(children)|
        invariant Current() == VisitedUpTo(config, old(Current()), p.visits[..i])
        invariant alive == |Running(children[..i])|
      {
        assert p.visits[..i + 1][..i] == p.visits[..i];
        ghost var before := Current();
        var up := VisitChild(i, p.visits[i]);
        EarlierKept(config, before, i, p.visits[i]);
        RunningExtend(children, i);
        if up {
          alive := alive + 1;
        }
      }
      assert p.visits[..|p.visits|] == p.visits && children[..|children|] == children;
      if p.signalAtEnd {
        HandleSignal();
      }
    }

    /** The loop on the given inputs; None when it is still running after them. */
    method Supervise(passes: seq<Pass>) returns (code: Option<int>, n: nat)
      requires Fitting(Current(), passes)
      modifies this
      ensures n <= |passes| && Current() == PassedAll(config, old(Current()), passes[..n])
      ensures code.None? ==> n == |passes| && Busy(config, old(Current()), passes)
      ensures code.Some? ==> n > 0 && Busy(config, old(Current()), passes[..n - 1]) && Running(children) == {}
                             && code.value == if shutdownRequested then 0 else 1
    {
      n := 0;
      while n < |passes|
        invariant n <= |passes| && |children| == |old(children)|
        invariant Current() == PassedAll(config, old(Current()), passes[..n])
        invariant Busy(config, old(Current()), passes[..n])
      {
        PassesExtend(config, old(Current()), passes, n);
        var alive := ReapPass(passes[n]);
        n := n + 1;
        if alive == 0 {
          return Some(if shutdownRequested then 0 else 1), n;
        }
      }
      assert passes[..n] == passes;
      return None, n;
    }
  }

  lemma PassesExtend(c: Config, st: State, passes: seq<Pass>, n: nat)
    requires Fitting(st, passes) && n < |passes|
    ensures Fitting(st, passes[..n]) && Fitting(st, passes[..n + 1])
    ensures PassedAll(c, st, passes[..n + 1]) == Passed(c, PassedAll(c, st, passes[..n]), passes[n])
    ensures Busy(c, st, passes[..n + 1]) <==> Busy(c, st, passes[..n]) && Running(PassedAll(c, st, passes[..n + 1]).children) != {}
  {
    assert passes[..n + 1][..n] == passes[..n];
  }

  lemma EarlierKept(c: Config, st: State, i: nat, v: Visit)
    requires i < |st.children|
    ensures Visited(c, st, i, v).children[..i] == st.children[..i]
  {
  }

  lemma RunningExtend(children: seq<Child>, i: nat)
    requires i < |children|
    ensures Running(children[..i + 1]) == Running(children[..i]) + (if children[i].running then {i} else {})
    ensures |Running(children[..i + 1])| == |Running(children[..i])| + (if children[i].running then 1 else 0)
  {
    assert children[..i + 1][..i] == children[..i];
    RunningMeaning(children[..i]);
  }

  lemma {:induction false} RunningMeaning(children: seq<Child>)
    ensures forall i: nat :: i in Running(children) <==> i < |children| && children[i].running
  {
    if children != [] {
      RunningMeaning(children[..|children| - 1]);
    }
  }
}
