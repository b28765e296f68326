/** The option "critical" of a service: nothing the daemon does depends on it. */
module Criticality {
  import opened Supervisor
  import opened Text

  function Plain(v: Service): Service {
    v.(flags := v.flags - {CRITICAL})
  }

  function PlainAll(vs: seq<Service>): (us: seq<Service>)
    ensures |us| == |vs| && forall i :: 0 <= i < |vs| ==> us[i] == Plain(vs[i])
  {
    seq(|vs|, i requires 0 <= i < |vs| => Plain(vs[i]))
  }

  /** The same state with no service marked critical. */
  function Strip(st: State): (r: State)
    ensures |r.services| == |st.services|
  {
    st.(services := PlainAll(st.services))
  }

  lemma Less(f: set<Flag>, g: set<Flag>)
    requires CRITICAL !in g
    ensures f - {CRITICAL} - g == f - g - {CRITICAL} && f - {CRITICAL} + g == f + g - {CRITICAL}
    ensures (f - {CRITICAL}) * g == f * g
  {
  }

  lemma StripWith(st: State, i: nat, v: Service)
    requires i < |st.services|
    ensures Strip(With(st, i, v)) == With(Strip(st), i, Plain(v))
  {
    hide Plain;
    assert PlainAll(st.services[i := v]) == PlainAll(st.services)[i := Plain(v)];
  }

  lemma StripLaunch(w: World, st: State, i: nat, dynamicArgs: bool)
    requires i < |st.services|
    ensures Launch(w, Strip(st), i, dynamicArgs) == Strip(Launch(w, st, i, dynamicArgs))
  {
    hide ForkResult, PlainAll;
    var was := st.services[i];
    var v := was.(flags := was.flags - {DISABLED, RESTARTING, RESET}, timeStarted := 0);
    Less(was.flags, {DISABLED, RESTARTING, RESET});
    Less(v.flags, {DISABLED});
    Less(v.flags, {RUNNING});
    var pid, now := ForkResult(w, st.owner, st.tick + 1), w.clock(st.tick + 2);
    StripWith(st, i, v);
    StripWith(st, i, v.(flags := v.flags + {DISABLED}));
    StripWith(st, i, v.(pid := 0));
    if pid >= 0 {
      StripWith(st, i, v.(timeStarted := now, pid := pid, flags := v.flags + {RUNNING}));
    }
  }

  lemma StripHalt(st: State, i: nat, how: Flag)
    requires i < |st.services|
    ensures Halt(Strip(st), i, how) == Strip(Halt(st, i, how))
  {
    hide PlainAll;
    var v := st.services[i];
    var how' := if how != DISABLED && how != RESET then DISABLED else how;
    var mark := if how' == RESET && RC_DISABLED in v.flags then DISABLED else how';
    Less(v.flags, {RUNNING, RESTARTING});
    Less(v.flags - {RUNNING, RESTARTING}, {mark});
    StripWith(st, i, v.(flags := v.flags - {RUNNING, RESTARTING} + {mark}));
  }

  lemma StripRestart(w: World, st: State, i: nat)
    requires i < |st.services|
    ensures RestartIfNeeded(w, Strip(st), i) == Strip(RestartIfNeeded(w, st, i))
  {
    hide Launch, PlainAll;
    var v, s := st.services[i], st.(tick := st.tick + 1);
    var u := v.(flags := v.flags - {RESTARTING});
    Less(v.flags, {RESTARTING});
    StripWith(s, i, u);
    StripLaunch(w, With(s, i, u), i, false);
  }

  lemma StripAfterExit(v: Service)
    ensures AfterExit(Plain(v)) == Plain(AfterExit(v))
  {
    var g := if ONESHOT in v.flags then {DISABLED} else {};
    Less(v.flags, {RUNNING});
    Less(v.flags - {RUNNING}, g);
    var flags := v.flags - {RUNNING} + g;
    Less(flags, {DISABLED, RESET});
    Less(flags, {RESTARTING});
  }

  lemma StripFind(vs: seq<Service>, name: string, pid: nat)
    ensures FindName(PlainAll(vs), name) == FindName(vs, name) && FindPid(PlainAll(vs), pid) == FindPid(vs, pid)
  {
    hide FindName, FindPid;
  }

  lemma StripExited(st: State, pid: nat)
    ensures Exited(Strip(st), pid) == Strip(Exited(st, pid))
  {
    hide PlainAll, AfterExit;
    StripFind(st.services, "", pid);
    var i := FindPid(st.services, pid);
    if i != -1 {
      StripAfterExit(st.services[i]);
      StripWith(st.(owner := st.owner - {pid}), i, AfterExit(st.services[i]));
    }
  }

  // ----- commands and events

  lemma {:induction false} StripClassStart(w: World, st: State, class_: string, i: nat)
    requires i <= |st.services|
    ensures ClassStartFrom(w, Strip(st), class_, i) == Strip(ClassStartFrom(w, st, class_, i))
    decreases |st.services| - i
  {
    hide Launch, PlainAll;
    if i < |st.services| {
      var v, asked := st.services[i], st.(trace := st.trace + [Requested(i)]);
      if v.classname == class_ && DISABLED !in v.flags {
        StripLaunch(w, asked, i, false);
        StripClassStart(w, Request(w, st, i, false), class_, i + 1);
      } else {
        StripClassStart(w, st, class_, i + 1);
      }
    }
  }

  lemma {:induction false} StripClassHalt(st: State, class_: string, how: Flag, i: nat)
    requires i <= |st.services|
    ensures ClassHaltFrom(Strip(st), class_, how, i) == Strip(ClassHaltFrom(st, class_, how, i))
    decreases |st.services| - i
  {
    hide Halt, PlainAll;
    if i < |st.services| {
      if st.services[i].classname == class_ {
        StripHalt(st, i, how);
        StripClassHalt(Halt(st, i, how), class_, how, i + 1);
      } else {
        StripClassHalt(st, class_, how, i + 1);
      }
    }
  }

  lemma {:induction false} StripRestartFrom(w: World, st: State, i: nat)
    requires i <= |st.services|
    ensures RestartFrom(w, Strip(st), i) == Strip(RestartFrom(w, st, i))
    decreases |st.services| - i
  {
    hide RestartIfNeeded, PlainAll;
    if i < |st.services| {
      if RESTARTING in st.services[i].flags {
        StripRestart(w, st, i);
        StripRestartFrom(w, RestartIfNeeded(w, st, i), i + 1);
      } else {
        StripRestartFrom(w, st, i + 1);
      }
    }
  }

  lemma StripStop(st: State, name: string)
    ensures StopNamed(Strip(st), name) == Strip(StopNamed(st, name))
  {
    hide Halt, PlainAll;
    StripFind(st.services, name, 0);
    var i := FindName(st.services, name);
    if i != -1 {
      StripHalt(st, i, DISABLED);
    }
  }

  lemma StripStart(w: World, st: State, name: string, dynamicArgs: bool)
    ensures StartNamed(w, Strip(st), name, dynamicArgs) == Strip(StartNamed(w, st, name, dynamicArgs))
  {
    hide Launch, PlainAll;
    StripFind(st.services, name, 0);
    var i := FindName(st.services, name);
    if i != -1 {
      StripLaunch(w, st.(trace := st.trace + [Requested(i)]), i, dynamicArgs);
    }
  }

  lemma StripDo(w: World, st: State, c: Command)
    ensures Do(w, Strip(st), c) == Strip(Do(w, st, c))
  {
    hide StartNamed, StopNamed, ClassStartFrom, ClassHaltFrom, Strip;
    match c
    case Start(name) => StripStart(w, st, name, false);
    case Stop(name) => StripStop(st, name);
    case Restart(name) =>
      StripStop(st, name);
      StripStart(w, StopNamed(st, name), name, false);
    case ClassStart(class_) => StripClassStart(w, st, class_, 0);
    case ClassStop(class_) => StripClassHalt(st, class_, DISABLED, 0);
    case ClassReset(class_) => StripClassHalt(st, class_, RESET, 0);
    case Other =>
  }

  lemma {:induction false} StripDoAll(w: World, st: State, cs: seq<Command>)
    ensures DoAll(w, Strip(st), cs) == Strip(DoAll(w, st, cs))
    decreases |cs|
  {
    hide Do, Strip;
    if cs != [] {
      StripDo(w, st, cs[0]);
      StripDoAll(w, Do(w, st, cs[0]), cs[1..]);
    }
  }

  lemma StripReap(w: World, st: State, pid: nat)
    ensures Reap(w, Strip(st), pid) == Strip(Reap(w, st, pid))
  {
    hide Exited, DoAll, PlainAll, FindPid;
    var s := Exited(st, pid);
    StripFind(st.services, "", pid);
    StripExited(st, pid);
    var i := FindPid(st.services, pid);
    if i != -1 {
      Less(s.services[i].flags, {DISABLED, RESET});
      StripDoAll(w, s, s.services[i].onrestart);
    }
  }

  lemma {:induction false} StripReapAll(w: World, st: State, pids: seq<nat>)
    ensures ReapAll(w, Strip(st), pids) == Strip(ReapAll(w, st, pids))
    decreases |pids|
  {
    hide Reap, Strip;
    if pids != [] {
      StripReap(w, st, pids[0]);
      StripReapAll(w, Reap(w, st, pids[0]), pids[1..]);
    }
  }

  lemma StripStep(w: World, st: State, e: Event)
    ensures Step(w, Strip(st), e) == Strip(Step(w, st, e))
  {
    hide Do, StartNamed, StopNamed, RestartFrom, ReapAll, PlainAll, IndexOf;
    match e
    case Perform(c) => StripDo(w, st, c);
    case Message(msg, arg) =>
      var k := IndexOf(arg, ':');
      StripStop(st, arg);
      StripStart(w, st, arg[..k], k < |arg|);
      StripStart(w, StopNamed(st, arg), arg[..k], k < |arg|);
    case Timer => StripRestartFrom(w, st.(needsRestart := 0), 0);
    case Signal(pids) => StripReapAll(w, st, pids);
  }

  /** Marking services as critical changes nothing in any run: the same starts, stops, forks and
      restarts happen, at the same times. */
  lemma {:induction false} RunIgnoresCritical(w: World, st: State, es: seq<Event>)
    ensures Run(w, Strip(st), es) == Strip(Run(w, st, es))
    decreases |es|
  {
    hide Step, Strip;
    if es != [] {
      StripStep(w, st, es[0]);
      RunIgnoresCritical(w, Step(w, st, es[0]), es[1..]);
    }
  }
}
