/** The service supervisor as the daemon runs it: service records updated in place. */
module Services {
  import opened Supervisor
  import opened Scheduling
  import opened Text

  /** struct service; id is its place in the service list. */
  class ServiceRecord {
    const id: nat
    const name: string
    const classname: string
    const onrestart: seq<Command>
    var flags: set<Flag>
    var pid: nat
    var timeStarted: nat

    constructor (id: nat, name: string, classname: string, onrestart: seq<Command>, flags: set<Flag>)
      ensures this.id == id && Value() == Service(name, classname, onrestart, flags, 0, 0)
    {
      this.id, this.name, this.classname, this.onrestart := id, name, classname, onrestart;
      this.flags, pid, timeStarted := flags, 0, 0;
    }

    function Value(): Service
      reads this
    {
      Service(name, classname, onrestart, flags, pid, timeStarted)
    }
  }

  class Daemon {
    const world: World
    const services: seq<ServiceRecord>
    var needsRestart: nat
    /** The kernel's side: calls answered so far, and children not reaped yet. */
    var tick: nat
    var owner: map<nat, nat>
    ghost var trace: seq<Item>

    constructor (world: World, services: seq<ServiceRecord>)
      ensures this.world == world && this.services == services
      ensures needsRestart == 0 && tick == 0 && owner == map[] && trace == []
    {
      this.world, this.services := world, services;
      needsRestart, tick, owner, trace := 0, 0, map[], [];
    }

    ghost predicate Valid() {
      forall i :: 0 <= i < |services| ==> services[i].id == i
    }

    ghost predicate Has(svc: ServiceRecord) {
      svc.id < |services| && services[svc.id] == svc
    }

    ghost function Values(): (vs: seq<Service>)
      reads services
      ensures |vs| == |services| && forall i :: 0 <= i < |vs| ==> vs[i] == services[i].Value()
    {
      seq(|services|, i requires 0 <= i < |services| reads services => services[i].Value())
    }

    ghost function Value(): (st: State)
      reads this, services
      ensures |st.services| == |services|
    {
      State(Values(), owner, needsRestart, tick, trace)
    }

    // ----- the system

    method Stat() returns (ok: bool)
      modifies this`tick
      ensures ok == world.stat(old(tick)) && tick == old(tick) + 1
    {
      ok := world.stat(tick);
      tick := tick + 1;
    }

    method GetTime() returns (now: nat)
      modifies this`tick
      ensures now == world.clock(old(tick)) && tick == old(tick) + 1
    {
      now := world.clock(tick);
      tick := tick + 1;
    }

    /** The pid of a new child, or -1. */
    method Fork(id: nat) returns (pid: int)
      modifies this`tick, this`owner
      ensures pid == ForkResult(world, old(owner), old(tick)) && tick == old(tick) + 1
      ensures owner == if pid < 0 then old(owner) else old(owner)[pid := id]
    {
      pid := world.fork(tick);
      tick := tick + 1;
      if pid <= 0 || pid in owner {
        pid := -1;
      } else {
        owner := owner[pid := id];
      }
    }

    // ----- one service

    /** service_start */
    method Start(svc: ServiceRecord, dynamicArgs: bool)
      requires Valid() && Has(svc)
      modifies this`tick, this`owner, this`trace, svc
      ensures Value() == Launch(world, old(Value()), svc.id, dynamicArgs)
    {
      hide Values, ForkResult;
      ghost var st, i := Value(), svc.id;
      svc.flags := svc.flags - {DISABLED, RESTARTING, RESET};
      svc.timeStarted := 0;
      if RUNNING !in svc.flags {
        StartIdle(svc, dynamicArgs);
      }
      assert Values() == st.services[i := svc.Value()];
    }

    /** service_start for a service that does not run. */
    method StartIdle(svc: ServiceRecord, dynamicArgs: bool)
      modifies this`tick, this`owner, this`trace, svc
      ensures var v, t := old(svc.Value()), old(tick);
              if (CONSOLE in v.flags && !world.haveConsole(t)) || !world.stat(t) || (ONESHOT !in v.flags && dynamicArgs) then
                svc.Value() == v.(flags := v.flags + {DISABLED}) && tick == t + 1 && owner == old(owner) && trace == old(trace)
              else
                var pid := ForkResult(world, old(owner), t + 1);
                if pid < 0 then
                  svc.Value() == v.(pid := 0) && tick == t + 2 && owner == old(owner) && trace == old(trace)
                else
                  var now := world.clock(t + 2);
                  svc.Value() == v.(pid := pid, timeStarted := now, flags := v.flags + {RUNNING})
                  && tick == t + 3 && owner == old(owner)[pid := svc.id] && trace == old(trace) + [Forked(svc.id, now)]
    {
      hide ForkResult;
      var refused := Refused(svc, dynamicArgs);
      if refused {
        svc.flags := svc.flags + {DISABLED};
        return;
      }
      StartProcess(svc);
    }

    /** The checks of service_start: console, program, and arguments of this start. */
    method Refused(svc: ServiceRecord, dynamicArgs: bool) returns (refused: bool)
      modifies this`tick
      ensures refused ==
        ((CONSOLE in svc.flags && !world.haveConsole(old(tick)))
         || !world.stat(old(tick)) || (ONESHOT !in svc.flags && dynamicArgs))
      ensures tick == old(tick) + 1
    {
      var needsConsole := CONSOLE in svc.flags;
      if needsConsole && !world.haveConsole(tick) {
        tick := tick + 1;
        return true;
      }
      var found := Stat();
      refused := !found || (ONESHOT !in svc.flags && dynamicArgs);
    }

    /** service_start from fork on, in the parent. */
    method StartProcess(svc: ServiceRecord)
      modifies this`tick, this`owner, this`trace, svc
      ensures var pid := ForkResult(world, old(owner), old(tick));
              if pid < 0 then
                tick == old(tick) + 1 && owner == old(owner) && trace == old(trace) &&
                svc.Value() == old(svc.Value()).(pid := 0)
              else
                var now := world.clock(old(tick) + 1);
                tick == old(tick) + 2 && owner == old(owner)[pid := svc.id] &&
                trace == old(trace) + [Forked(svc.id, now)] &&
                svc.Value() == old(svc.Value()).(pid := pid, timeStarted := now, flags := old(svc.flags) + {RUNNING})
    {
      hide ForkResult;
      var pid := Fork(svc.id);
      if pid < 0 {
        svc.pid := 0;
        return;
      }
      svc.timeStarted := GetTime();
      svc.pid := pid;
      svc.flags := svc.flags + {RUNNING};
      trace := trace + [Forked(svc.id, svc.timeStarted)];
    }

    /** A start that is asked for. */
    method RequestStart(svc: ServiceRecord, dynamicArgs: bool)
      requires Valid() && Has(svc)
      modifies this`tick, this`owner, this`trace, svc
      ensures Value() == Request(world, old(Value()), svc.id, dynamicArgs)
    {
      hide Values, Launch;
      trace := trace + [Requested(svc.id)];
      Start(svc, dynamicArgs);
    }

    /** service_stop_or_reset; killing the process group is left to the kernel. */
    method StopOrReset(svc: ServiceRecord, how: Flag)
      requires Valid() && Has(svc)
      modifies svc`flags
      ensures Value() == Halt(old(Value()), svc.id, how)
    {
      hide Values;
      ghost var st := Value();
      var how := how;
      svc.flags := svc.flags - {RUNNING, RESTARTING};
      if how != DISABLED && how != RESET {
        how := DISABLED;
      }
      if how == RESET {
        svc.flags := svc.flags + {if RC_DISABLED in svc.flags then DISABLED else RESET};
      } else {
        svc.flags := svc.flags + {how};
      }
      assert Values() == st.services[svc.id := svc.Value()];
    }

    /** restart_service_if_needed */
    method RestartServiceIfNeeded(svc: ServiceRecord)
      requires Valid() && Has(svc)
      modifies this, svc
      ensures Value() == RestartIfNeeded(world, old(Value()), svc.id)
    {
      hide Values, Launch;
      ghost var st := Value();
      var next := svc.timeStarted + 5;
      var now := GetTime();
      if next <= now {
        svc.flags := svc.flags - {RESTARTING};
        assert Values() == st.services[svc.id := svc.Value()];
        Start(svc, false);
        return;
      }
      if next < needsRestart || needsRestart == 0 {
        needsRestart := next;
      }
    }

    // ----- the service list

    /** service_find_by_name */
    method FindByName(name: string) returns (svc: ServiceRecord?)
      requires Valid()
      ensures svc == null <==> FindName(Values(), name) == -1
      ensures svc != null ==> Has(svc) && svc.id == FindName(Values(), name)
    {
      hide Values, FindName;
      ghost var vs := Values();
      var i := 0;
      while i < |services|
        invariant i <= |services| && forall k :: 0 <= k < i ==> vs[k].name != name
      {
        if services[i].name == name {
          assert vs[i].name == name;
          return services[i];
        }
        i := i + 1;
      }
      svc := null;
    }

    /** service_find_by_pid */
    method FindByPid(pid: nat) returns (svc: ServiceRecord?)
      requires Valid()
      ensures svc == null <==> FindPid(Values(), pid) == -1
      ensures svc != null ==> Has(svc) && svc.id == FindPid(Values(), pid)
    {
      hide Values, FindPid;
      ghost var vs := Values();
      var i := 0;
      while i < |services|
        invariant i <= |services| && forall k :: 0 <= k < i ==> vs[k].pid != pid
      {
        if services[i].pid == pid {
          assert vs[i].pid == pid;
          return services[i];
        }
        i := i + 1;
      }
      svc := null;
    }

    /** restart_processes: service_for_each_flags over those that wait. */
    method RestartWaiting()
      requires Valid()
      modifies this, services
      ensures Value() == RestartProcesses(world, old(Value()))
    {
      hide Values, RestartFrom, RestartIfNeeded;
      needsRestart := 0;
      ghost var goal := RestartFrom(world, Value(), 0);
      var i := 0;
      while i < |services|
        invariant i <= |services| && RestartFrom(world, Value(), i) == goal
      {
        RestartFromStep(world, Value(), i);
        assert services[i] in services;
        if RESTARTING in services[i].flags {
          RestartServiceIfNeeded(services[i]);
        }
        i := i + 1;
      }
      RestartFromEnd(world, Value());
    }

    /** do_class_start */
    method StartClass(class_: string)
      requires Valid()
      modifies this, services
      ensures Value() == ClassStartFrom(world, old(Value()), class_, 0)
    {
      hide Values, ClassStartFrom, Request;
      ghost var goal := ClassStartFrom(world, Value(), class_, 0);
      var i := 0;
      while i < |services|
        invariant i <= |services| && ClassStartFrom(world, Value(), class_, i) == goal
      {
        ClassStartStep(world, Value(), class_, i);
        assert services[i] in services;
        if services[i].classname == class_ {
          if DISABLED !in services[i].flags {
            RequestStart(services[i], false);
          }
        }
        i := i + 1;
      }
      ClassStartEnd(world, Value(), class_);
    }

    /** do_class_stop and do_class_reset */
    method HaltClass(class_: string, how: Flag)
      requires Valid()
      modifies this, services
      ensures Value() == ClassHaltFrom(old(Value()), class_, how, 0)
    {
      hide Values, ClassHaltFrom, Halt;
      ghost var goal := ClassHaltFrom(Value(), class_, how, 0);
      var i := 0;
      while i < |services|
        invariant i <= |services| && ClassHaltFrom(Value(), class_, how, i) == goal
      {
        ClassHaltStep(Value(), class_, how, i);
        assert services[i] in services;
        if services[i].classname == class_ {
          StopOrReset(services[i], how);
        }
        i := i + 1;
      }
      ClassHaltEnd(Value(), class_, how);
    }

    // ----- commands, control messages, exits

    method StopByName(name: string)
      requires Valid()
      modifies this, services
      ensures Value() == StopNamed(old(Value()), name)
    {
      hide Values, Halt, FindName;
      var svc := FindByName(name);
      if svc != null {
        assert svc in services;
        StopOrReset(svc, DISABLED);
      }
    }

    method StartByName(name: string, dynamicArgs: bool)
      requires Valid()
      modifies this, services
      ensures Value() == StartNamed(world, old(Value()), name, dynamicArgs)
    {
      hide Values, Request, FindName;
      var svc := FindByName(name);
      if svc != null {
        assert svc in services;
        RequestStart(svc, dynamicArgs);
      }
    }

    /** do_restart */
    method RestartByName(name: string)
      requires Valid()
      modifies this, services
      ensures Value() == Do(world, old(Value()), Command.Restart(name))
    {
      hide Values, Request, Halt, FindName;
      var svc := FindByName(name);
      if svc != null {
        assert svc in services;
        StopOrReset(svc, DISABLED);
        SameNames(old(Values()), Values(), name);
        RequestStart(svc, false);
      }
    }

    /** One command of an action. */
    method Execute(c: Command)
      requires Valid()
      modifies this, services
      ensures Value() == Do(world, old(Value()), c)
    {
      hide Values, StartNamed, StopNamed, ClassStartFrom, ClassHaltFrom;
      match c
      case Start(name) => StartByName(name, false);
      case Stop(name) => StopByName(name);
      case Restart(name) => RestartByName(name);
      case ClassStart(class_) => StartClass(class_);
      case ClassStop(class_) => HaltClass(class_, DISABLED);
      case ClassReset(class_) => HaltClass(class_, RESET);
      case Other =>
    }

    /** handle_control_message */
    method HandleControlMessage(msg: string, arg: string)
      requires Valid()
      modifies this, services
      ensures Value() == Control(world, old(Value()), msg, arg)
    {
      hide Values, StartNamed, StopNamed, IndexOf;
      if msg == "start" {
        StartMessage(arg);
      } else if msg == "stop" {
        StopByName(arg);
      } else if msg == "restart" {
        StopByName(arg);
        StartMessage(arg);
      }
    }

    /** msg_start */
    method StartMessage(arg: string)
      requires Valid()
      modifies this, services
      ensures Value() == MsgStart(world, old(Value()), arg)
    {
      hide Values, StartNamed, IndexOf;
      var colon := IndexOf(arg, ':');
      StartByName(arg[..colon], colon < |arg|);
    }

    /** wait_for_one_process, given what waitpid returned. */
    method WaitForOneProcess(pid: nat)
      requires Valid()
      modifies this, services
      ensures Value() == Reap(world, old(Value()), pid)
    {
      hide Values, FindPid, AfterExit, DoAll;
      if pid == 0 { return; }
      ghost var st := Value();
      owner := owner - {pid};
      var svc := FindByPid(pid);
      if svc == null { return; }
      assert svc in services;
      MarkExited(svc);
      assert Values() == st.services[svc.id := svc.Value()];
      ExitMarks(st.services[svc.id]);
      if DISABLED in svc.flags || RESET in svc.flags { return; }
      ExecuteAll(svc.onrestart);
    }

    /** The flags of a service whose process was reaped. */
    method MarkExited(svc: ServiceRecord)
      modifies svc
      ensures svc.Value() == AfterExit(old(svc.Value()))
    {
      svc.pid := 0;
      svc.flags := svc.flags - {RUNNING};
      if ONESHOT in svc.flags {
        svc.flags := svc.flags + {DISABLED};
      }
      if DISABLED in svc.flags || RESET in svc.flags {
        return;
      }
      svc.flags := svc.flags + {RESTARTING};
    }

    /** The onrestart commands of a service. */
    method ExecuteAll(commands: seq<Command>)
      requires Valid()
      modifies this, services
      ensures Value() == DoAll(world, old(Value()), commands)
    {
      hide Values, Do, DoAll;
      ghost var goal := DoAll(world, Value(), commands);
      assert commands[0..] == commands;
      var k := 0;
      while k < |commands|
        invariant k <= |commands| && DoAll(world, Value(), commands[k..]) == goal
      {
        DoAllStep(world, Value(), commands, k);
        Execute(commands[k]);
        k := k + 1;
      }
      DoAllEnd(world, Value(), commands[k..]);
    }

    /** handle_signal, given the children waitpid returns in turn. */
    method HandleSignal(pids: seq<nat>)
      requires Valid()
      modifies this, services
      ensures Value() == ReapAll(world, old(Value()), pids)
    {
      hide Values, Reap, ReapAll;
      ghost var goal := ReapAll(world, Value(), pids);
      assert pids[0..] == pids;
      var k := 0;
      while k < |pids|
        invariant k <= |pids| && ReapAll(world, Value(), pids[k..]) == goal
      {
        ReapAllStep(world, Value(), pids, k);
        WaitForOneProcess(pids[k]);
        k := k + 1;
      }
      ReapAllEnd(world, Value(), pids[k..]);
    }

    /** The main loop's reaction to one event. */
    method Handle(e: Event)
      requires Valid()
      modifies this, services
      ensures Value() == Step(world, old(Value()), e)
    {
      hide Values, Do, Control, RestartProcesses, ReapAll;
      match e
      case Perform(c) => Execute(c);
      case Message(msg, arg) => HandleControlMessage(msg, arg);
      case Timer => RestartWaiting();
      case Signal(pids) => HandleSignal(pids);
    }

    /** How long the main loop may sleep. */
    method Timeout(busy: bool) returns (timeout: int)
      modifies this`tick
      ensures timeout == PollTimeout(world, old(Value()), busy)
    {
      timeout := -1;
      if needsRestart != 0 {
        var now := GetTime();
        timeout := (needsRestart - now) * 1000;
        if timeout < 0 {
          timeout := 0;
        }
      }
      if busy {
        timeout := 0;
      }
    }

    method RunEvents(es: seq<Event>)
      requires Valid()
      modifies this, services
      ensures Value() == Run(world, old(Value()), es)
    {
      hide Values, Step, Run;
      ghost var goal := Run(world, Value(), es);
      assert es[0..] == es;
      var k := 0;
      while k < |es|
        invariant k <= |es| && Run(world, Value(), es[k..]) == goal
      {
        RunStep(world, Value(), es, k);
        Handle(es[k]);
        k := k + 1;
      }
      RunEnd(world, Value(), es[k..]);
    }
  }

  // ----- one step of each loop

  lemma RestartFromStep(w: World, st: State, i: nat)
    requires i < |st.services|
    ensures RestartFrom(w, st, i) ==
      RestartFrom(w, if RESTARTING in st.services[i].flags then RestartIfNeeded(w, st, i) else st, i + 1)
  {
    hide RestartIfNeeded;
  }

  lemma RestartFromEnd(w: World, st: State)
    ensures RestartFrom(w, st, |st.services|) == st
  {
  }

  lemma ClassStartStep(w: World, st: State, class_: string, i: nat)
    requires i < |st.services|
    ensures var v := st.services[i];
            ClassStartFrom(w, st, class_, i) ==
              ClassStartFrom(w, if v.classname == class_ && DISABLED !in v.flags then Request(w, st, i, false) else st,
                             class_, i + 1)
  {
    hide Request;
  }

  lemma ClassStartEnd(w: World, st: State, class_: string)
    ensures ClassStartFrom(w, st, class_, |st.services|) == st
  {
  }

  lemma ClassHaltStep(st: State, class_: string, how: Flag, i: nat)
    requires i < |st.services|
    ensures ClassHaltFrom(st, class_, how, i) ==
      ClassHaltFrom(if st.services[i].classname == class_ then Halt(st, i, how) else st, class_, how, i + 1)
  {
    hide Halt;
  }

  lemma ClassHaltEnd(st: State, class_: string, how: Flag)
    ensures ClassHaltFrom(st, class_, how, |st.services|) == st
  {
  }

  lemma DoAllStep(w: World, st: State, cs: seq<Command>, k: nat)
    requires k < |cs|
    ensures DoAll(w, st, cs[k..]) == DoAll(w, Do(w, st, cs[k]), cs[k + 1..])
  {
    hide Do;
    assert cs[k..][1..] == cs[k + 1..];
  }

  lemma DoAllEnd(w: World, st: State, cs: seq<Command>)
    requires cs == []
    ensures DoAll(w, st, cs) == st
  {
  }

  lemma ReapAllStep(w: World, st: State, pids: seq<nat>, k: nat)
    requires k < |pids|
    ensures ReapAll(w, st, pids[k..]) == ReapAll(w, Reap(w, st, pids[k]), pids[k + 1..])
  {
    hide Reap;
    assert pids[k..][1..] == pids[k + 1..];
  }

  lemma ReapAllEnd(w: World, st: State, pids: seq<nat>)
    requires pids == []
    ensures ReapAll(w, st, pids) == st
  {
  }

  lemma RunStep(w: World, st: State, es: seq<Event>, k: nat)
    requires k < |es|
    ensures Run(w, st, es[k..]) == Run(w, Step(w, st, es[k]), es[k + 1..])
  {
    hide Step;
    assert es[k..][1..] == es[k + 1..];
  }

  lemma RunEnd(w: World, st: State, es: seq<Event>)
    requires es == []
    ensures Run(w, st, es) == st
  {
  }

  /** Stopping a service changes no name. */
  lemma SameNames(vs: seq<Service>, us: seq<Service>, name: string)
    requires |vs| == |us| && forall i :: 0 <= i < |vs| ==> vs[i].name == us[i].name
    ensures FindName(vs, name) == FindName(us, name)
  {
    hide FindName;
  }

  lemma ExitMarks(v: Service)
    ensures AfterExit(v).flags * {DISABLED, RESET} == {} <==> DISABLED !in AfterExit(v).flags && RESET !in AfterExit(v).flags
  {
    var flags := AfterExit(v).flags;
    assert DISABLED in flags ==> DISABLED in flags * {DISABLED, RESET};
    assert RESET in flags ==> RESET in flags * {DISABLED, RESET};
  }
}
