/** The service supervisor as a transition system on values: starting, stopping, resetting and
    restarting services, and the exits of their processes. */
module Supervisor {
  import opened Text

  datatype Flag = DISABLED | ONESHOT | RUNNING | RESTARTING | CONSOLE | CRITICAL | RESET | RC_DISABLED

  /** Commands of an action that act on services; Other stands for all the rest. */
  datatype Command =
    | Start(name: string) | Stop(name: string) | Restart(name: string)
    | ClassStart(class_: string) | ClassStop(class_: string) | ClassReset(class_: string)
    | Other

  datatype Service = Service(
    name: string, classname: string, onrestart: seq<Command>,
    flags: set<Flag>, pid: nat, timeStarted: nat)

  /** What the system answers to the tick-th question put to it. */
  datatype World = World(haveConsole: nat -> bool, stat: nat -> bool, fork: nat -> int, clock: nat -> nat)

  /** History: a start was asked for (not by the restart timer), a process was forked. */
  datatype Item = Requested(i: nat) | Forked(i: nat, time: nat)

  /** owner maps the pid of every child that was not reaped yet to the service it was forked for. */
  datatype State = State(
    services: seq<Service>, owner: map<nat, nat>, needsRestart: nat, tick: nat, trace: seq<Item>)

  ghost predicate Monotone(w: World) {
    forall i, j :: i <= j ==> w.clock(i) <= w.clock(j)
  }

  // ----- transitions of one service

  function With(st: State, i: nat, v: Service): State
    requires i < |st.services|
  {
    st.(services := st.services[i := v])
  }

  /** The kernel never hands out the pid of a child that is still unreaped. */
  function ForkResult(w: World, owner: map<nat, nat>, tick: nat): (pid: int)
    ensures pid == -1 || (pid > 0 && pid !in owner)
  {
    var pid := w.fork(tick);
    if pid <= 0 || pid in owner then -1 else pid
  }

  /** service_start */
  function Launch(w: World, st: State, i: nat, dynamicArgs: bool): (r: State)
    requires i < |st.services|
    ensures |r.services| == |st.services|
  {
    var was := st.services[i];
    var v := was.(flags := was.flags - {DISABLED, RESTARTING, RESET}, timeStarted := 0);
    var disabled := v.(flags := v.flags + {DISABLED});
    if RUNNING in v.flags then With(st, i, v)
    else if (CONSOLE in v.flags && !w.haveConsole(st.tick)) || !w.stat(st.tick) || (ONESHOT !in v.flags && dynamicArgs) then
      With(st, i, disabled).(tick := st.tick + 1)
    else
      var pid := ForkResult(w, st.owner, st.tick + 1);
      if pid < 0 then With(st, i, v.(pid := 0)).(tick := st.tick + 2)
      else
        var now := w.clock(st.tick + 2);
        With(st, i, v.(timeStarted := now, pid := pid, flags := v.flags + {RUNNING}))
          .(tick := st.tick + 3, owner := st.owner[pid := i], trace := st.trace + [Forked(i, now)])
  }

  /** A start that was asked for by name, class or control message. */
  function Request(w: World, st: State, i: nat, dynamicArgs: bool): (r: State)
    requires i < |st.services|
    ensures |r.services| == |st.services|
  {
    Launch(w, st.(trace := st.trace + [Requested(i)]), i, dynamicArgs)
  }

  /** service_stop_or_reset */
  function Halt(st: State, i: nat, how: Flag): (r: State)
    requires i < |st.services|
    ensures |r.services| == |st.services|
  {
    var v := st.services[i];
    var flags := v.flags - {RUNNING, RESTARTING};
    var how := if how != DISABLED && how != RESET then DISABLED else how;
    var mark := if how == RESET && RC_DISABLED in flags then DISABLED else how;
    With(st, i, v.(flags := flags + {mark}))
  }

  /** restart_service_if_needed */
  function RestartIfNeeded(w: World, st: State, i: nat): (r: State)
    requires i < |st.services|
    ensures |r.services| == |st.services|
  {
    var v := st.services[i];
    var next, s := v.timeStarted + 5, st.(tick := st.tick + 1);
    if next <= w.clock(st.tick) then Launch(w, With(s, i, v.(flags := v.flags - {RESTARTING})), i, false)
    else if next < st.needsRestart || st.needsRestart == 0 then s.(needsRestart := next)
    else s
  }

  /** A service whose process is gone, before its onrestart commands. */
  function AfterExit(v: Service): Service {
    var flags := v.flags - {RUNNING} + if ONESHOT in v.flags then {DISABLED} else {};
    v.(pid := 0, flags := if flags * {DISABLED, RESET} != {} then flags else flags + {RESTARTING})
  }

  function FindPid(vs: seq<Service>, pid: nat): (r: int)
    ensures r == -1 ==> forall i :: 0 <= i < |vs| ==> vs[i].pid != pid
    ensures r != -1 ==> 0 <= r < |vs| && vs[r].pid == pid && forall i :: 0 <= i < r ==> vs[i].pid != pid
  {
    if vs == [] then -1
    else if vs[0].pid == pid then 0
    else
      var r := FindPid(vs[1..], pid);
      if r == -1 then -1 else r + 1
  }

  function FindName(vs: seq<Service>, name: string): (r: int)
    ensures r == -1 ==> forall i :: 0 <= i < |vs| ==> vs[i].name != name
    ensures r != -1 ==> 0 <= r < |vs| && vs[r].name == name && forall i :: 0 <= i < r ==> vs[i].name != name
  {
    if vs == [] then -1
    else if vs[0].name == name then 0
    else
      var r := FindName(vs[1..], name);
      if r == -1 then -1 else r + 1
  }

  /** wait_for_one_process up to the onrestart commands: pid was reaped. */
  function Exited(st: State, pid: nat): (r: State)
    ensures |r.services| == |st.services|
  {
    var i := FindPid(st.services, pid);
    var s := st.(owner := st.owner - {pid});
    if i == -1 then s else With(s, i, AfterExit(st.services[i]))
  }

  // ----- commands and events

  function ClassStartFrom(w: World, st: State, class_: string, i: nat): (r: State)
    requires i <= |st.services|
    ensures |r.services| == |st.services|
    decreases |st.services| - i
  {
    if i == |st.services| then st
    else
      var v := st.services[i];
      var s := if v.classname == class_ && DISABLED !in v.flags then Request(w, st, i, false) else st;
      ClassStartFrom(w, s, class_, i + 1)
  }

  function ClassHaltFrom(st: State, class_: string, how: Flag, i: nat): (r: State)
    requires i <= |st.services|
    ensures |r.services| == |st.services|
    decreases |st.services| - i
  {
    if i == |st.services| then st
    else
      var s := if st.services[i].classname == class_ then Halt(st, i, how) else st;
      ClassHaltFrom(s, class_, how, i + 1)
  }

  function StopNamed(st: State, name: string): (r: State)
    ensures |r.services| == |st.services|
  {
    var i := FindName(st.services, name);
    if i == -1 then st else Halt(st, i, DISABLED)
  }

  function StartNamed(w: World, st: State, name: string, dynamicArgs: bool): (r: State)
    ensures |r.services| == |st.services|
  {
    var i := FindName(st.services, name);
    if i == -1 then st else Request(w, st, i, dynamicArgs)
  }

  function Do(w: World, st: State, c: Command): (r: State)
    ensures |r.services| == |st.services|
  {
    match c
    case Start(name) => StartNamed(w, st, name, false)
    case Stop(name) => StopNamed(st, name)
    case Restart(name) => StartNamed(w, StopNamed(st, name), name, false)
    case ClassStart(class_) => ClassStartFrom(w, st, class_, 0)
    case ClassStop(class_) => ClassHaltFrom(st, class_, DISABLED, 0)
    case ClassReset(class_) => ClassHaltFrom(st, class_, RESET, 0)
    case Other => st
  }

  function DoAll(w: World, st: State, cs: seq<Command>): (r: State)
    ensures |r.services| == |st.services|
    decreases |cs|
  {
    if cs == [] then st else DoAll(w, Do(w, st, cs[0]), cs[1..])
  }

  /** wait_for_one_process with waitpid returning pid. */
  function Reap(w: World, st: State, pid: nat): (r: State)
    ensures |r.services| == |st.services|
  {
    if pid == 0 then st
    else
      var i, s := FindPid(st.services, pid), Exited(st, pid);
      if i == -1 || s.services[i].flags * {DISABLED, RESET} != {} then s
      else DoAll(w, s, s.services[i].onrestart)
  }

  /** handle_signal: all children that have exited. */
  function ReapAll(w: World, st: State, pids: seq<nat>): (r: State)
    ensures |r.services| == |st.services|
    decreases |pids|
  {
    if pids == [] then st else ReapAll(w, Reap(w, st, pids[0]), pids[1..])
  }

  function RestartFrom(w: World, st: State, i: nat): (r: State)
    requires i <= |st.services|
    ensures |r.services| == |st.services|
    decreases |st.services| - i
  {
    if i == |st.services| then st
    else
      var s := if RESTARTING in st.services[i].flags then RestartIfNeeded(w, st, i) else st;
      RestartFrom(w, s, i + 1)
  }

  /** restart_processes */
  function RestartProcesses(w: World, st: State): (r: State)
    ensures |r.services| == |st.services|
  {
    RestartFrom(w, st.(needsRestart := 0), 0)
  }

  /** msg_start: what follows a colon is the argument string of this start. */
  function MsgStart(w: World, st: State, arg: string): (r: State)
    ensures |r.services| == |st.services|
  {
    var k := IndexOf(arg, ':');
    StartNamed(w, st, arg[..k], k < |arg|)
  }

  /** handle_control_message */
  function Control(w: World, st: State, msg: string, arg: string): (r: State)
    ensures |r.services| == |st.services|
  {
    if msg == "start" then MsgStart(w, st, arg)
    else if msg == "stop" then StopNamed(st, arg)
    else if msg == "restart" then MsgStart(w, StopNamed(st, arg), arg)
    else st
  }

  datatype Event =
    | Perform(command: Command) | Message(msg: string, arg: string)
    | Timer | Signal(pids: seq<nat>)

  function Step(w: World, st: State, e: Event): (r: State)
    ensures |r.services| == |st.services|
  {
    match e
    case Perform(c) => Do(w, st, c)
    case Message(msg, arg) => Control(w, st, msg, arg)
    case Timer => RestartProcesses(w, st)
    case Signal(pids) => ReapAll(w, st, pids)
  }

  function Run(w: World, st: State, es: seq<Event>): (r: State)
    ensures |r.services| == |st.services|
    decreases |es|
  {
    if es == [] then st else Run(w, Step(w, st, es[0]), es[1..])
  }

  // ----- every event is a sequence of moves of single services

  datatype Move = MRequest(i: nat, dynamicArgs: bool) | MHalt(i: nat, how: Flag) | MRestart(i: nat) | MReset | MExit(pid: nat)

  function Apply(w: World, st: State, m: Move): (r: State)
    ensures |r.services| == |st.services|
  {
    match m
    case MRequest(i, dynamicArgs) => if i < |st.services| then Request(w, st, i, dynamicArgs) else st
    case MHalt(i, how) => if i < |st.services| then Halt(st, i, how) else st
    case MRestart(i) =>
      if i < |st.services| && RESTARTING in st.services[i].flags then RestartIfNeeded(w, st, i) else st
    case MReset => st.(needsRestart := 0)
    case MExit(pid) => if pid == 0 then st else Exited(st, pid)
  }

  function ApplyAll(w: World, st: State, ms: seq<Move>): (r: State)
    ensures |r.services| == |st.services|
    decreases |ms|
  {
    if ms == [] then st else ApplyAll(w, Apply(w, st, ms[0]), ms[1..])
  }

  /** The only exits among the moves are of these pids. */
  predicate ExitsAmong(ms: seq<Move>, pids: set<nat>) {
    forall m :: m in ms && m.MExit? ==> m.pid in pids
  }

  /** The pids an event reports as exited. */
  function Signalled(e: Event): set<nat> {
    if e.Signal? then set pid | pid in e.pids else {}
  }

  function AllSignalled(es: seq<Event>): set<nat> {
    if es == [] then {} else Signalled(es[0]) + AllSignalled(es[1..])
  }

  lemma {:induction false} ApplyAppend(w: World, st: State, a: seq<Move>, b: seq<Move>)
    ensures ApplyAll(w, st, a + b) == ApplyAll(w, ApplyAll(w, st, a), b)
    decreases |a|
  {
    hide Apply;
    if a == [] {
      assert a + b == b;
    } else {
      assert (a + b)[1..] == a[1..] + b;
      ApplyAppend(w, Apply(w, st, a[0]), a[1..], b);
    }
  }

  lemma One(w: World, st: State, m: Move)
    ensures ApplyAll(w, st, [m]) == Apply(w, st, m)
  {
    hide Apply;
    assert [m][1..] == [];
  }

  lemma Then(w: World, st: State, m: Move, ms: seq<Move>)
    ensures ApplyAll(w, st, [m] + ms) == ApplyAll(w, Apply(w, st, m), ms)
  {
    hide Apply;
    assert ([m] + ms)[1..] == ms;
  }

  lemma {:induction false} ClassStartMoves(w: World, st: State, class_: string, i: nat) returns (ms: seq<Move>)
    requires i <= |st.services|
    ensures ApplyAll(w, st, ms) == ClassStartFrom(w, st, class_, i)
    ensures ExitsAmong(ms, {})
    decreases |st.services| - i
  {
    hide Request, ApplyAll;
    ms := NoMoves(w, st);
    if i < |st.services| {
      var v := st.services[i];
      if v.classname == class_ && DISABLED !in v.flags {
        ms := ClassStartMoves(w, Request(w, st, i, false), class_, i + 1);
        Then(w, st, MRequest(i, false), ms);
        ms := [MRequest(i, false)] + ms;
      } else {
        ms := ClassStartMoves(w, st, class_, i + 1);
      }
    }
  }

  lemma NoMoves(w: World, st: State) returns (ms: seq<Move>)
    ensures ms == [] && ApplyAll(w, st, ms) == st
  {
    ms := [];
  }

  lemma {:induction false} ClassHaltMoves(w: World, st: State, class_: string, how: Flag, i: nat) returns (ms: seq<Move>)
    requires i <= |st.services|
    ensures ApplyAll(w, st, ms) == ClassHaltFrom(st, class_, how, i)
    ensures ExitsAmong(ms, {})
    decreases |st.services| - i
  {
    hide Halt, ApplyAll;
    ms := NoMoves(w, st);
    if i < |st.services| {
      if st.services[i].classname == class_ {
        ms := ClassHaltMoves(w, Halt(st, i, how), class_, how, i + 1);
        Then(w, st, MHalt(i, how), ms);
        ms := [MHalt(i, how)] + ms;
      } else {
        ms := ClassHaltMoves(w, st, class_, how, i + 1);
      }
    }
  }

  lemma {:induction false} RestartMoves(w: World, st: State, i: nat) returns (ms: seq<Move>)
    requires i <= |st.services|
    ensures ApplyAll(w, st, ms) == RestartFrom(w, st, i)
    ensures ExitsAmong(ms, {})
    decreases |st.services| - i
  {
    hide RestartIfNeeded, ApplyAll;
    ms := NoMoves(w, st);
    if i < |st.services| {
      if RESTARTING in st.services[i].flags {
        ms := RestartMoves(w, RestartIfNeeded(w, st, i), i + 1);
        Then(w, st, MRestart(i), ms);
        ms := [MRestart(i)] + ms;
      } else {
        ms := RestartMoves(w, st, i + 1);
      }
    }
  }

  lemma StopMoves(w: World, st: State, name: string) returns (ms: seq<Move>)
    ensures ApplyAll(w, st, ms) == StopNamed(st, name)
    ensures ExitsAmong(ms, {})
  {
    hide Halt, ApplyAll;
    ms := NoMoves(w, st);
    var i := FindName(st.services, name);
    if i != -1 {
      One(w, st, MHalt(i, DISABLED));
      ms := [MHalt(i, DISABLED)];
    }
  }

  lemma StartMoves(w: World, st: State, name: string, dynamicArgs: bool) returns (ms: seq<Move>)
    ensures ApplyAll(w, st, ms) == StartNamed(w, st, name, dynamicArgs)
    ensures ExitsAmong(ms, {})
  {
    hide Request, ApplyAll;
    ms := NoMoves(w, st);
    var i := FindName(st.services, name);
    if i != -1 {
      One(w, st, MRequest(i, dynamicArgs));
      ms := [MRequest(i, dynamicArgs)];
    }
  }

  lemma StopStartMoves(w: World, st: State, stop: string, start: string, dynamicArgs: bool) returns (ms: seq<Move>)
    ensures ApplyAll(w, st, ms) == StartNamed(w, StopNamed(st, stop), start, dynamicArgs)
    ensures ExitsAmong(ms, {})
  {
    hide StopNamed, StartNamed, ApplyAll;
    var a := StopMoves(w, st, stop);
    var b := StartMoves(w, StopNamed(st, stop), start, dynamicArgs);
    ApplyAppend(w, st, a, b);
    ms := a + b;
  }

  lemma DoMoves(w: World, st: State, c: Command) returns (ms: seq<Move>)
    ensures ApplyAll(w, st, ms) == Do(w, st, c)
    ensures ExitsAmong(ms, {})
  {
    hide ApplyAll, StartNamed, StopNamed, ClassStartFrom, ClassHaltFrom;
    match c
    case Start(name) => ms := StartMoves(w, st, name, false);
    case Stop(name) => ms := StopMoves(w, st, name);
    case Restart(name) => ms := StopStartMoves(w, st, name, name, false);
    case ClassStart(class_) => ms := ClassStartMoves(w, st, class_, 0);
    case ClassStop(class_) => ms := ClassHaltMoves(w, st, class_, DISABLED, 0);
    case ClassReset(class_) => ms := ClassHaltMoves(w, st, class_, RESET, 0);
    case Other => ms := NoMoves(w, st);
  }

  lemma {:induction false} DoAllMoves(w: World, st: State, cs: seq<Command>) returns (ms: seq<Move>)
    ensures ApplyAll(w, st, ms) == DoAll(w, st, cs)
    ensures ExitsAmong(ms, {})
    decreases |cs|
  {
    hide ApplyAll, Do;
    ms := NoMoves(w, st);
    if cs != [] {
      var a := DoMoves(w, st, cs[0]);
      var b := DoAllMoves(w, Do(w, st, cs[0]), cs[1..]);
      ApplyAppend(w, st, a, b);
      ms := a + b;
    }
  }

  lemma ReapMoves(w: World, st: State, pid: nat) returns (ms: seq<Move>)
    ensures ApplyAll(w, st, ms) == Reap(w, st, pid)
    ensures ExitsAmong(ms, {pid})
  {
    hide ApplyAll, DoAll, Exited, FindPid;
    ms := NoMoves(w, st);
    if pid != 0 {
      var i, s := FindPid(st.services, pid), Exited(st, pid);
      One(w, st, MExit(pid));
      ms := [MExit(pid)];
      if i != -1 && s.services[i].flags * {DISABLED, RESET} == {} {
        ms := DoAllMoves(w, s, s.services[i].onrestart);
        Then(w, st, MExit(pid), ms);
        ms := [MExit(pid)] + ms;
      }
    }
  }

  lemma {:induction false} ReapAllMoves(w: World, st: State, pids: seq<nat>) returns (ms: seq<Move>)
    ensures ApplyAll(w, st, ms) == ReapAll(w, st, pids)
    ensures ExitsAmong(ms, set pid | pid in pids)
    decreases |pids|
  {
    hide ApplyAll, Reap;
    ms := NoMoves(w, st);
    if pids != [] {
      var a := ReapMoves(w, st, pids[0]);
      var b := ReapAllMoves(w, Reap(w, st, pids[0]), pids[1..]);
      ApplyAppend(w, st, a, b);
      ms := a + b;
    }
  }

  lemma StepMoves(w: World, st: State, e: Event) returns (ms: seq<Move>)
    ensures ApplyAll(w, st, ms) == Step(w, st, e)
    ensures ExitsAmong(ms, Signalled(e))
  {
    hide ApplyAll, Do, StartNamed, StopNamed, RestartFrom, ReapAll;
    match e
    case Perform(c) => ms := DoMoves(w, st, c);
    case Message(msg, arg) =>
      var k := IndexOf(arg, ':');
      if msg == "start" {
        ms := StartMoves(w, st, arg[..k], k < |arg|);
      } else if msg == "stop" {
        ms := StopMoves(w, st, arg);
      } else if msg == "restart" {
        ms := StopStartMoves(w, st, arg, arg[..k], k < |arg|);
      } else {
        ms := NoMoves(w, st);
      }
    case Timer =>
      ms := RestartMoves(w, st.(needsRestart := 0), 0);
      Then(w, st, MReset, ms);
      ms := [MReset] + ms;
    case Signal(pids) => ms := ReapAllMoves(w, st, pids);
  }

  /** Every run is a sequence of moves of single services. */
  lemma {:induction false} RunMoves(w: World, st: State, es: seq<Event>) returns (ms: seq<Move>)
    ensures ApplyAll(w, st, ms) == Run(w, st, es)
    ensures ExitsAmong(ms, AllSignalled(es))
    decreases |es|
  {
    hide ApplyAll, Step;
    ms := NoMoves(w, st);
    if es != [] {
      var a := StepMoves(w, st, es[0]);
      var b := RunMoves(w, Step(w, st, es[0]), es[1..]);
      ApplyAppend(w, st, a, b);
      ms := a + b;
    }
  }
}
