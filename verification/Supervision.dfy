/** What every run of the service supervisor keeps. */
module Supervision {
  import opened Supervisor
  import opened Text

  /** Flags fixed by the configuration. */
  const CONFIG: set<Flag> := {ONESHOT, CONSOLE, CRITICAL, RC_DISABLED}

  /** After parsing: nothing runs, nothing was forked. */
  predicate Initial(st: State) {
    && st.owner == map[] && st.trace == []
    && forall i :: 0 <= i < |st.services| ==>
         st.services[i].flags <= CONFIG + {DISABLED} && st.services[i].pid == 0 && st.services[i].timeStarted == 0
  }

  predicate Lifecycle(v: Service) {
    && (RUNNING in v.flags ==> v.flags * {DISABLED, RESET, RESTARTING} == {} && v.pid != 0)
    && (RESTARTING in v.flags ==> v.flags * {DISABLED, RESET, ONESHOT} == {} && v.pid == 0)
  }

  /** The process of a service is an unreaped child that was forked for it. */
  predicate Owned(st: State, i: nat)
    requires i < |st.services|
  {
    var pid := st.services[i].pid;
    pid != 0 ==> pid in st.owner && st.owner[pid] == i
  }

  /** When service i was forked last, unless a start was asked for since. */
  function LastFork(trace: seq<Item>, i: nat): Option<nat> {
    if trace == [] then None
    else
      var last := trace[|trace| - 1];
      if last.i != i then LastFork(trace[..|trace| - 1], i)
      else if last.Forked? then Some(last.time)
      else None
  }

  predicate Timed(st: State, i: nat)
    requires i < |st.services|
  {
    var v, last := st.services[i], LastFork(st.trace, i);
    last.Some? && (RESTARTING in v.flags || v.pid != 0) ==> v.timeStarted == last.value
  }

  /** No start of i was asked for from position p up to q. */
  predicate Unrequested(trace: seq<Item>, i: nat, p: nat, q: nat)
    requires q <= |trace|
  {
    forall k :: p <= k < q ==> trace[k] != Requested(i)
  }

  predicate Spaced(trace: seq<Item>) {
    forall p, q :: 0 <= p < q < |trace| && trace[p].Forked? && trace[q].Forked? && trace[p].i == trace[q].i
                   && Unrequested(trace, trace[p].i, p, q)
      ==> trace[p].time + 5 <= trace[q].time
  }

  predicate OneshotRequested(st: State) {
    forall q :: 0 <= q < |st.trace| && st.trace[q].Forked? && st.trace[q].i < |st.services|
                && ONESHOT in st.services[st.trace[q].i].flags
      ==> q > 0 && st.trace[q - 1] == Requested(st.trace[q].i)
  }

  predicate Inv(st: State) {
    && 0 !in st.owner
    && (forall i :: 0 <= i < |st.services| ==> Lifecycle(st.services[i]))
    && (forall i :: 0 <= i < |st.services| ==> Owned(st, i))
    && (forall i :: 0 <= i < |st.services| ==> Timed(st, i))
    && Spaced(st.trace) && OneshotRequested(st)
  }

  // ----- the invariant of one move

  lemma LastForkStep(trace: seq<Item>, x: Item, i: nat)
    ensures LastFork(trace + [x], i) ==
      if x.i != i then LastFork(trace, i) else if x.Forked? then Some(x.time) else None
  {
    assert (trace + [x])[..|trace|] == trace;
  }

  /** The last fork is at least as late as any other since the last request. */
  lemma {:induction false} LastForkIsLatest(trace: seq<Item>, p: nat)
    requires p < |trace| && trace[p].Forked? && Spaced(trace) && Unrequested(trace, trace[p].i, p, |trace|)
    ensures LastFork(trace, trace[p].i).Some? && trace[p].time <= LastFork(trace, trace[p].i).value
  {
    var n := |trace| - 1;
    if p < n {
      var init := trace[..n];
      assert init + [trace[n]] == trace;
      LastForkStep(init, trace[n], trace[p].i);
      SpacedPrefix(init, trace[n]);
      LastForkIsLatest(init, p);
    }
  }

  lemma SpacedPrefix(trace: seq<Item>, x: Item)
    requires Spaced(trace + [x])
    ensures Spaced(trace)
  {
    var all := trace + [x];
    forall p, q | 0 <= p < q < |trace| && trace[p].Forked? && trace[q].Forked? && trace[p].i == trace[q].i
                  && Unrequested(trace, trace[p].i, p, q)
      ensures trace[p].time + 5 <= trace[q].time
    {
      assert all[p] == trace[p] && all[q] == trace[q];
      assert Unrequested(all, all[p].i, p, q);
    }
  }

  lemma SpacedAppend(trace: seq<Item>, x: Item)
    requires Spaced(trace)
    requires x.Forked? && LastFork(trace, x.i).Some? ==> LastFork(trace, x.i).value + 5 <= x.time
    ensures Spaced(trace + [x])
  {
    var all := trace + [x];
    forall p, q | 0 <= p < q < |all| && all[p].Forked? && all[q].Forked? && all[p].i == all[q].i
                  && Unrequested(all, all[p].i, p, q)
      ensures all[p].time + 5 <= all[q].time
    {
      assert forall k :: p <= k < q ==> all[k] == trace[k];
      if q == |trace| {
        LastForkIsLatest(trace, p);
      } else {
        assert Unrequested(trace, trace[p].i, p, q);
      }
    }
  }

  lemma OneshotAppend(st: State, x: Item)
    requires OneshotRequested(st)
    requires x.Forked? && x.i < |st.services| && ONESHOT in st.services[x.i].flags ==>
      st.trace != [] && st.trace[|st.trace| - 1] == Requested(x.i)
    ensures OneshotRequested(st.(trace := st.trace + [x]))
  {
  }

  /** A new state for one service that keeps its configuration. */
  lemma WithInv(st: State, i: nat, v: Service)
    requires Inv(st) && i < |st.services| && Lifecycle(v)
    requires ONESHOT in v.flags ==> ONESHOT in st.services[i].flags
    requires v.pid == 0 || v.pid == st.services[i].pid
    requires var last := LastFork(st.trace, i);
             last.Some? && (RESTARTING in v.flags || v.pid != 0) ==> v.timeStarted == last.value
    ensures Inv(With(st, i, v))
  {
    hide Lifecycle, LastFork, Spaced;
    var s := With(st, i, v);
    forall j | 0 <= j < |s.services| ensures Owned(s, j) && Timed(s, j) && Lifecycle(s.services[j]) {
      assert Owned(st, j) && Timed(st, j) && Lifecycle(st.services[j]);
    }
  }

  /** A process was forked for service i: asked for, or at least five seconds after the last one. */
  lemma ForkInv(st: State, i: nat, v: Service, pid: nat, now: nat)
    requires Inv(st) && i < |st.services| && Lifecycle(v) && pid != 0 && pid !in st.owner
    requires v.pid == pid && v.timeStarted == now && (ONESHOT in v.flags ==> ONESHOT in st.services[i].flags)
    requires LastFork(st.trace, i).Some? ==> LastFork(st.trace, i).value + 5 <= now
    requires ONESHOT in st.services[i].flags ==> st.trace != [] && st.trace[|st.trace| - 1] == Requested(i)
    ensures Inv(With(st, i, v).(owner := st.owner[pid := i], trace := st.trace + [Forked(i, now)]))
  {
    hide Lifecycle, LastFork, Spaced, OneshotRequested;
    var x := Forked(i, now);
    var s := With(st, i, v).(owner := st.owner[pid := i], trace := st.trace + [x]);
    SpacedAppend(st.trace, x);
    OneshotAppend(st, x);
    OneshotWith(st.(trace := st.trace + [x]), s, i);
    forall j | 0 <= j < |s.services| ensures Owned(s, j) && Timed(s, j) && Lifecycle(s.services[j]) {
      assert Owned(st, j) && Timed(st, j) && Lifecycle(st.services[j]);
      LastForkStep(st.trace, x, j);
    }
  }

  lemma OneshotWith(st: State, s: State, i: nat)
    requires OneshotRequested(st) && i < |st.services| == |s.services| && s.trace == st.trace
    requires forall j :: 0 <= j < |st.services| && j != i ==> s.services[j] == st.services[j]
    requires ONESHOT in s.services[i].flags ==> ONESHOT in st.services[i].flags
    ensures OneshotRequested(s)
  {
  }

  lemma RequestedInv(st: State, i: nat)
    requires Inv(st)
    ensures Inv(st.(trace := st.trace + [Requested(i)])) && LastFork(st.trace + [Requested(i)], i) == None
  {
    hide Lifecycle, LastFork, Spaced, OneshotRequested;
    var x := Requested(i);
    var s := st.(trace := st.trace + [x]);
    SpacedAppend(st.trace, x);
    OneshotAppend(st, x);
    LastForkStep(st.trace, x, i);
    forall j | 0 <= j < |s.services| ensures Owned(s, j) && Timed(s, j) && Lifecycle(s.services[j]) {
      assert Owned(st, j) && Timed(st, j) && Lifecycle(st.services[j]);
      LastForkStep(st.trace, x, j);
    }
  }

  /** Neither the restart list nor the calls made so far matter to the invariant. */
  lemma ClockInv(st: State, tick: nat, needsRestart: nat)
    requires Inv(st)
    ensures Inv(st.(tick := tick, needsRestart := needsRestart))
  {
    hide Lifecycle, LastFork, Spaced;
    var s := st.(tick := tick, needsRestart := needsRestart);
    forall j | 0 <= j < |s.services| ensures Owned(s, j) && Timed(s, j) {
      assert Owned(st, j) && Timed(st, j);
    }
  }

  lemma LaunchInv(w: World, st: State, i: nat, dynamicArgs: bool)
    requires Inv(st) && i < |st.services|
    requires LastFork(st.trace, i).Some? ==>
      st.services[i].pid == 0 && LastFork(st.trace, i).value + 5 <= w.clock(st.tick + 2)
    requires ONESHOT in st.services[i].flags ==> st.trace != [] && st.trace[|st.trace| - 1] == Requested(i)
    ensures Inv(Launch(w, st, i, dynamicArgs))
  {
    hide Inv, LastFork, ForkResult;
    LaunchFacts(st, i);
    var was := st.services[i];
    var v := was.(flags := was.flags - {DISABLED, RESTARTING, RESET}, timeStarted := 0);
    if RUNNING in v.flags {
      WithInv(st, i, v);
    } else if (CONSOLE in v.flags && !w.haveConsole(st.tick)) || !w.stat(st.tick) || (ONESHOT !in v.flags && dynamicArgs) {
      WithInv(st, i, v.(flags := v.flags + {DISABLED}));
      ClockInv(With(st, i, v.(flags := v.flags + {DISABLED})), st.tick + 1, st.needsRestart);
    } else {
      var pid := ForkResult(w, st.owner, st.tick + 1);
      if pid < 0 {
        WithInv(st, i, v.(pid := 0));
        ClockInv(With(st, i, v.(pid := 0)), st.tick + 2, st.needsRestart);
      } else {
        var now := w.clock(st.tick + 2);
        var v := v.(timeStarted := now, pid := pid, flags := v.flags + {RUNNING});
        ForkInv(st, i, v, pid, now);
        ClockInv(With(st, i, v).(owner := st.owner[pid := i], trace := st.trace + [Forked(i, now)]),
                 st.tick + 3, st.needsRestart);
      }
    }
  }

  lemma LaunchFacts(st: State, i: nat)
    requires Inv(st) && i < |st.services|
    ensures Lifecycle(st.services[i])
  {
  }

  lemma RestartInv(w: World, st: State, i: nat)
    requires Inv(st) && Monotone(w) && i < |st.services| && RESTARTING in st.services[i].flags
    ensures Inv(RestartIfNeeded(w, st, i))
  {
    hide LastFork, Launch, Spaced, OneshotRequested, Owned;
    var v := st.services[i];
    var next := v.timeStarted + 5;
    assert Lifecycle(v) && Timed(st, i);
    ClockInv(st, st.tick + 1, st.needsRestart);
    ClockInv(st, st.tick + 1, next);
    if next <= w.clock(st.tick) {
      var s, u := st.(tick := st.tick + 1), v.(flags := v.flags - {RESTARTING});
      WithInv(s, i, u);
      assert w.clock(st.tick) <= w.clock(st.tick + 3);
      LaunchInv(w, With(s, i, u), i, false);
    }
  }

  lemma HaltInv(st: State, i: nat, how: Flag)
    requires Inv(st) && i < |st.services|
    ensures Inv(Halt(st, i, how))
  {
    hide LastFork, Spaced, OneshotRequested, Owned;
    assert Lifecycle(st.services[i]) && Timed(st, i);
    WithInv(st, i, Halt(st, i, how).services[i]);
  }

  lemma ExitInv(st: State, pid: nat)
    requires Inv(st) && pid != 0
    ensures Inv(Exited(st, pid))
  {
    hide LastFork, Spaced, OneshotRequested, FindPid;
    var i := FindPid(st.services, pid);
    var s := if i == -1 then st else With(st, i, AfterExit(st.services[i]));
    if i != -1 {
      assert Lifecycle(st.services[i]) && Timed(st, i);
      WithInv(st, i, AfterExit(st.services[i]));
    }
    forall j | 0 <= j < |s.services|
      ensures s.services[j].pid != pid
    {
      if j != i {
        assert Owned(st, j);
        if i != -1 { assert Owned(st, i); }
      }
    }
    ForgetInv(s, pid);
  }

  lemma ForgetInv(st: State, pid: nat)
    requires Inv(st) && forall j :: 0 <= j < |st.services| ==> st.services[j].pid != pid
    ensures Inv(st.(owner := st.owner - {pid}))
  {
    hide LastFork, Spaced;
    var s := st.(owner := st.owner - {pid});
    forall j | 0 <= j < |s.services| ensures Owned(s, j) && Timed(s, j) {
      assert Owned(st, j) && Timed(st, j);
    }
  }

  lemma ApplyInv(w: World, st: State, m: Move)
    requires Inv(st) && Monotone(w)
    ensures Inv(Apply(w, st, m))
  {
    hide Inv, LastFork, Launch, RestartIfNeeded, Halt, Exited, Monotone;
    match m
    case MRequest(i, dynamicArgs) =>
      if i < |st.services| {
        RequestedInv(st, i);
        LaunchInv(w, st.(trace := st.trace + [Requested(i)]), i, dynamicArgs);
      }
    case MHalt(i, how) => if i < |st.services| { HaltInv(st, i, how); }
    case MRestart(i) =>
      if i < |st.services| && RESTARTING in st.services[i].flags { RestartInv(w, st, i); }
    case MReset => ClockInv(st, st.tick, 0);
    case MExit(pid) => if pid != 0 { ExitInv(st, pid); }
  }

  lemma {:induction false} ApplyAllInv(w: World, st: State, ms: seq<Move>)
    requires Inv(st) && Monotone(w)
    ensures Inv(ApplyAll(w, st, ms))
    decreases |ms|
  {
    hide Inv, Apply, Monotone;
    if ms != [] {
      ApplyInv(w, st, ms[0]);
      ApplyAllInv(w, Apply(w, st, ms[0]), ms[1..]);
    }
  }

  /** Every state of every run keeps the invariant. */
  lemma RunKeepsInv(w: World, st: State, es: seq<Event>)
    requires Inv(st) && Monotone(w)
    ensures Inv(Run(w, st, es))
  {
    hide *;
    var ms := RunMoves(w, st, es);
    ApplyAllInv(w, st, ms);
  }

  lemma InitialInv(st: State)
    requires Initial(st)
    ensures Inv(st)
  {
    forall i | 0 <= i < |st.services| ensures Lifecycle(st.services[i]) && Owned(st, i) && Timed(st, i) {
      assert st.services[i].flags <= CONFIG + {DISABLED};
    }
  }

  // ----- what that means

  /** The flags of a service never contradict each other, in any state of any run. */
  lemma RunLifecycle(w: World, st: State, es: seq<Event>, i: nat)
    requires Initial(st) && Monotone(w) && i < |st.services|
    ensures var v := Run(w, st, es).services[i];
            && (RUNNING in v.flags ==> DISABLED !in v.flags && RESET !in v.flags && RESTARTING !in v.flags && v.pid != 0)
            && (RESTARTING in v.flags ==> DISABLED !in v.flags && RESET !in v.flags && ONESHOT !in v.flags && v.pid == 0)
  {
    hide Run, Initial, Monotone, Owned, Timed, Spaced, OneshotRequested;
    InitialInv(st);
    RunKeepsInv(w, st, es);
    var v := Run(w, st, es).services[i];
    assert Lifecycle(v);
    Excludes(v.flags, {DISABLED, RESET, RESTARTING});
    Excludes(v.flags, {DISABLED, RESET, ONESHOT});
  }

  lemma Excludes(flags: set<Flag>, others: set<Flag>)
    ensures flags * others == {} <==> forall f :: f in others ==> f !in flags
  {
    assert forall f :: f in flags && f in others ==> f in flags * others;
  }

  /** Every service process is an unreaped child forked for that service; no two services share one. */
  lemma RunPids(w: World, st: State, es: seq<Event>, i: nat, j: nat)
    requires Initial(st) && Monotone(w) && i < |st.services| && j < |st.services|
    ensures var s := Run(w, st, es);
            && (s.services[i].pid != 0 ==> s.services[i].pid in s.owner && s.owner[s.services[i].pid] == i)
            && (s.services[i].pid == s.services[j].pid != 0 ==> i == j)
  {
    hide Run, Initial, Monotone, Lifecycle, Timed, Spaced, OneshotRequested;
    InitialInv(st);
    RunKeepsInv(w, st, es);
    var s := Run(w, st, es);
    assert Owned(s, i) && Owned(s, j);
  }

  /** Two forks of one service with no request between them are five seconds apart; a one-shot
      service is forked only right after a request. */
  lemma RunForks(w: World, st: State, es: seq<Event>, p: nat, q: nat)
    requires Initial(st) && Monotone(w)
    requires var t := Run(w, st, es).trace;
             p < q < |t| && t[p].Forked? && t[q].Forked? && t[p].i == t[q].i < |st.services|
    ensures var s := Run(w, st, es);
            && (Unrequested(s.trace, s.trace[p].i, p, q) ==> s.trace[p].time + 5 <= s.trace[q].time)
            && (ONESHOT in s.services[s.trace[q].i].flags ==> s.trace[q - 1] == Requested(s.trace[q].i))
  {
    hide Run, Initial, Monotone, Lifecycle, Timed, Owned;
    InitialInv(st);
    RunKeepsInv(w, st, es);
  }

  // ----- reaping

  /** Reaping a pid changes, before any onrestart command, exactly the service that holds it:
      its process is gone and it is not running; every other service is as it was. */
  lemma ReapChangesOwner(st: State, pid: nat, i: nat)
    requires Inv(st) && pid != 0 && i < |st.services|
    ensures var s := Exited(st, pid);
            && pid !in s.owner
            && (s.services[i] != st.services[i] <==> st.services[i].pid == pid)
            && (st.services[i].pid == pid ==>
                  && pid in st.owner && st.owner[pid] == i
                  && s.services[i].pid == 0 && RUNNING !in s.services[i].flags
                  && (RESTARTING in s.services[i].flags <==> st.services[i].flags * {ONESHOT, DISABLED, RESET} == {})
                  && (ONESHOT in st.services[i].flags ==> DISABLED in s.services[i].flags))
  {
    hide FindPid, Timed, Spaced, OneshotRequested;
    assert Lifecycle(st.services[i]) && Owned(st, i);
    var k := FindPid(st.services, pid);
    if k != -1 {
      assert Owned(st, k);
      if k == i {
        AfterExitFlags(st.services[i]);
      }
    }
  }

  lemma AfterExitFlags(v: Service)
    requires RESTARTING !in v.flags
    ensures RESTARTING in AfterExit(v).flags <==> v.flags * {ONESHOT, DISABLED, RESET} == {}
    ensures RUNNING !in AfterExit(v).flags && AfterExit(v).pid == 0
    ensures ONESHOT in v.flags ==> DISABLED in AfterExit(v).flags
  {
    var flags := v.flags - {RUNNING} + if ONESHOT in v.flags then {DISABLED} else {};
    if ONESHOT in v.flags {
      assert ONESHOT in v.flags * {ONESHOT, DISABLED, RESET};
      assert DISABLED in flags * {DISABLED, RESET};
    } else {
      assert flags * {DISABLED, RESET} == v.flags * {ONESHOT, DISABLED, RESET};
    }
  }

  /** A process that is still to be reaped and belongs to no service. */
  predicate Orphan(st: State, pid: nat) {
    pid != 0 && pid in st.owner && forall i :: 0 <= i < |st.services| ==> st.services[i].pid != pid
  }

  /** Whether starting service i comes to the fork. */
  predicate ReachesFork(w: World, st: State, i: nat, dynamicArgs: bool)
    requires i < |st.services|
  {
    var flags := st.services[i].flags;
    && RUNNING !in flags && (CONSOLE in flags ==> w.haveConsole(st.tick))
    && w.stat(st.tick) && (ONESHOT in flags || !dynamicArgs)
  }

  /** An orphan stays one until it is reaped. */
  lemma ApplyKeepsOrphan(w: World, st: State, m: Move, pid: nat)
    requires Orphan(st, pid) && m != MExit(pid)
    ensures Orphan(Apply(w, st, m), pid)
  {
    hide FindPid;
  }

  lemma {:induction false} ApplyAllKeepsOrphan(w: World, st: State, ms: seq<Move>, pid: nat)
    requires Orphan(st, pid) && MExit(pid) !in ms
    ensures Orphan(ApplyAll(w, st, ms), pid)
    decreases |ms|
  {
    hide Apply, Orphan;
    if ms != [] {
      ApplyKeepsOrphan(w, st, ms[0], pid);
      ApplyAllKeepsOrphan(w, Apply(w, st, ms[0]), ms[1..], pid);
    }
  }

  /** Reaping an orphan changes no service. */
  lemma ReapOrphan(st: State, pid: nat)
    requires Orphan(st, pid)
    ensures Exited(st, pid).services == st.services
  {
    hide FindPid;
  }

  /** Starting a service that has a process already: that process becomes an orphan exactly if the
      start comes to the fork, whether the fork succeeds or not. */
  lemma StartOrphans(w: World, st: State, i: nat, dynamicArgs: bool)
    requires Inv(st) && i < |st.services| && st.services[i].pid != 0
    ensures Orphan(Request(w, st, i, dynamicArgs), st.services[i].pid) <==> ReachesFork(w, st, i, dynamicArgs)
  {
    hide Spaced, OneshotRequested, Timed, Lifecycle;
    var pid, s := st.services[i].pid, Request(w, st, i, dynamicArgs);
    assert Owned(st, i);
    assert s.services[i].pid != pid <==> ReachesFork(w, st, i, dynamicArgs);
    forall j | 0 <= j < |s.services| && j != i ensures s.services[j].pid != pid {
      assert s.services[j] == st.services[j];
      assert Owned(st, j);
    }
  }

  /** From such a start on, whatever happens until the old process is reaped: it belongs to no
      service, and reaping it changes none. */
  lemma RunOrphans(w: World, st: State, i: nat, dynamicArgs: bool, es: seq<Event>)
    requires Inv(st) && i < |st.services| && st.services[i].pid != 0
    requires ReachesFork(w, st, i, dynamicArgs) && st.services[i].pid !in AllSignalled(es)
    ensures var pid, s := st.services[i].pid, Run(w, Request(w, st, i, dynamicArgs), es);
            && pid in s.owner && (forall j :: 0 <= j < |s.services| ==> s.services[j].pid != pid)
            && Reap(w, s, pid).services == s.services
  {
    hide Inv, ReachesFork, Request, Run, FindPid, DoAll;
    var pid, s := st.services[i].pid, Request(w, st, i, dynamicArgs);
    StartOrphans(w, st, i, dynamicArgs);
    var ms := RunMoves(w, s, es);
    ApplyAllKeepsOrphan(w, s, ms, pid);
    ReapOrphan(Run(w, s, es), pid);
  }

  /** Stopped, and started again before the old process was reaped. */
  lemma StopStartOrphans(w: World, st: State, i: nat, dynamicArgs: bool, es: seq<Event>)
    requires Inv(st) && i < |st.services| && st.services[i].pid != 0
    requires ReachesFork(w, Halt(st, i, DISABLED), i, dynamicArgs) && st.services[i].pid !in AllSignalled(es)
    ensures var pid, s := st.services[i].pid, Run(w, Request(w, Halt(st, i, DISABLED), i, dynamicArgs), es);
            && pid in s.owner && (forall j :: 0 <= j < |s.services| ==> s.services[j].pid != pid)
            && Reap(w, s, pid).services == s.services
  {
    hide Inv, ReachesFork, Request, Run, Reap;
    HaltInv(st, i, DISABLED);
    RunOrphans(w, Halt(st, i, DISABLED), i, dynamicArgs, es);
  }
}
