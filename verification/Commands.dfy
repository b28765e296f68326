/** What the commands, control messages, exits and the timer do to the services they are about. */
module Commands {
  import opened Supervisor
  import opened Supervision
  import opened Scheduling
  import opened Text

  /** The service that a name stands for. */
  predicate Named(st: State, name: string, i: nat) {
    i < |st.services| && st.services[i].name == name && forall j :: 0 <= j < i ==> st.services[j].name != name
  }

  predicate NoneNamed(st: State, name: string) {
    forall j :: 0 <= j < |st.services| ==> st.services[j].name != name
  }

  predicate OthersSame(st: State, s: State, i: nat) {
    |s.services| == |st.services| && forall j :: 0 <= j < |st.services| && j != i ==> s.services[j] == st.services[j]
  }

  predicate ForkWorks(w: World, st: State) {
    w.fork(st.tick + 1) > 0 && w.fork(st.tick + 1) !in st.owner
  }

  /** s is st after an attempt to start service i; asked: what that added to the history before. */
  predicate Started(w: World, st: State, s: State, i: nat, dynamicArgs: bool, asked: seq<Item>)
    requires i < |st.services| == |s.services|
  {
    var v, u := st.services[i], s.services[i];
    && OthersSame(st, s, i) && SameConfig(u, v) && u.flags !! {RESTARTING, RESET} && s.needsRestart == st.needsRestart
    && (u.timeStarted == 0 || |s.trace| > |st.trace + asked|)
    && if RUNNING in v.flags then
         RUNNING in u.flags && u.pid == v.pid && DISABLED !in u.flags && s.trace == st.trace + asked && s.owner == st.owner
       else if !ReachesFork(w, st, i, dynamicArgs) then
         RUNNING !in u.flags && u.pid == v.pid && DISABLED in u.flags && s.trace == st.trace + asked && s.owner == st.owner
       else if !ForkWorks(w, st) then
         RUNNING !in u.flags && u.pid == 0 && DISABLED !in u.flags && s.trace == st.trace + asked && s.owner == st.owner
       else
         var now := w.clock(st.tick + 2);
         && RUNNING in u.flags && u.pid == w.fork(st.tick + 1) && DISABLED !in u.flags && u.timeStarted == now
         && s.trace == st.trace + asked + [Forked(i, now)] && s.owner == st.owner[u.pid := i]
  }

  /** s is st after service i was stopped or reset, which marks it. */
  predicate Stopped(st: State, s: State, i: nat, mark: Flag)
    requires i < |st.services| == |s.services|
  {
    && OthersSame(st, s, i) && Halted(s.services[i]) && mark in s.services[i].flags
    && (forall f :: f != RUNNING && f != RESTARTING && f != mark ==>
          (f in s.services[i].flags <==> f in st.services[i].flags))
    && s.services[i].pid == st.services[i].pid && s == st.(services := s.services)
  }

  lemma LaunchStarts(w: World, st: State, i: nat, dynamicArgs: bool)
    requires i < |st.services|
    ensures Started(w, st, Launch(w, st, i, dynamicArgs), i, dynamicArgs, [])
  {
    assert st.trace + [] == st.trace;
  }

  lemma RequestStarts(w: World, st: State, i: nat, dynamicArgs: bool)
    requires i < |st.services|
    ensures Started(w, st, Request(w, st, i, dynamicArgs), i, dynamicArgs, [Requested(i)])
  {
    hide Launch;
    var r := st.(trace := st.trace + [Requested(i)]);
    LaunchStarts(w, r, i, dynamicArgs);
    assert r.trace + [] == r.trace;
  }

  lemma HaltStops(st: State, i: nat, how: Flag)
    requires i < |st.services| && (how == DISABLED || how == RESET)
    ensures Stopped(st, Halt(st, i, how), i, if how == RESET && RC_DISABLED !in st.services[i].flags then RESET else DISABLED)
  {
  }

  lemma NameFound(st: State, name: string, i: nat)
    requires Named(st, name, i)
    ensures FindName(st.services, name) == i
  {
  }

  // ----- commands

  lemma StartCommand(w: World, st: State, name: string, i: nat)
    requires Named(st, name, i)
    ensures Started(w, st, Step(w, st, Perform(Start(name))), i, false, [Requested(i)])
  {
    hide Request, Started;
    NameFound(st, name, i);
    RequestStarts(w, st, i, false);
  }

  lemma StopCommand(w: World, st: State, name: string, i: nat)
    requires Named(st, name, i)
    ensures Stopped(st, Step(w, st, Perform(Stop(name))), i, DISABLED)
  {
    hide Halt, Stopped;
    NameFound(st, name, i);
    HaltStops(st, i, DISABLED);
  }

  /** Stopped first, so that a start of it forks even if it was running. */
  lemma RestartCommand(w: World, st: State, name: string, i: nat) returns (stopped: State)
    requires Named(st, name, i)
    ensures |stopped.services| == |st.services| && Stopped(st, stopped, i, DISABLED)
    ensures Started(w, stopped, Step(w, st, Perform(Restart(name))), i, false, [Requested(i)])
  {
    hide Request, Started, Halt;
    NameFound(st, name, i);
    stopped := Halt(st, i, DISABLED);
    HaltStops(st, i, DISABLED);
    NameStays(st, stopped, name, i);
    NameFound(stopped, name, i);
    RequestStarts(w, stopped, i, false);
  }

  lemma NameStays(st: State, s: State, name: string, i: nat)
    requires Named(st, name, i) && s == Halt(st, i, DISABLED)
    ensures Named(s, name, i)
  {
  }

  /** A running service that is restarted ends with a new process, unless it cannot be forked. */
  lemma RestartForks(w: World, st: State, name: string, i: nat, dynamicArgs: bool)
    requires Named(st, name, i) && RUNNING in st.services[i].flags
    ensures var s, v := Step(w, st, Perform(Restart(name))), st.services[i];
            (CONSOLE in v.flags ==> w.haveConsole(st.tick)) && w.stat(st.tick) && ForkWorks(w, st) ==>
              && RUNNING in s.services[i].flags && s.services[i].pid == w.fork(st.tick + 1)
              && (v.pid in st.owner ==> s.services[i].pid != v.pid)
              && s.trace == st.trace + [Requested(i)] + [Forked(i, w.clock(st.tick + 2))]
  {
    hide Step;
    var stopped := RestartCommand(w, st, name, i);
  }

  lemma UnknownName(w: World, st: State, name: string)
    requires NoneNamed(st, name)
    ensures Step(w, st, Perform(Start(name))) == st && Step(w, st, Perform(Stop(name))) == st
         && Step(w, st, Perform(Restart(name))) == st && Step(w, st, Message("stop", name)) == st
  {
  }

  // ----- control messages

  /** The messages are the commands, for an argument without a colon. */
  lemma MessageIsCommand(w: World, st: State, name: string)
    requires ':' !in name
    ensures Step(w, st, Message("start", name)) == Step(w, st, Perform(Start(name)))
    ensures Step(w, st, Message("stop", name)) == Step(w, st, Perform(Stop(name)))
    ensures Step(w, st, Message("restart", name)) == Step(w, st, Perform(Restart(name)))
  {
    hide StartNamed, StopNamed;
    var k := IndexOf(name, ':');
    assert name[..|name|] == name;
  }

  /** What follows the first colon is the arguments of a start; a stop takes the whole for the name. */
  lemma MessageArguments(w: World, st: State, name: string, args: string, i: nat)
    requires ':' !in name && Named(st, name, i)
    ensures var arg := name + ":" + args;
            && Started(w, st, Step(w, st, Message("start", arg)), i, true, [Requested(i)])
            && (NoneNamed(st, arg) ==>
                  Step(w, st, Message("stop", arg)) == st
                  && Started(w, st, Step(w, st, Message("restart", arg)), i, true, [Requested(i)]))
  {
    hide Request, Started, Halt;
    var arg := name + ":" + args;
    FirstColon(name, args);
    NameFound(st, name, i);
    RequestStarts(w, st, i, true);
  }

  lemma FirstColon(name: string, args: string)
    requires ':' !in name
    ensures var arg := name + ":" + args; IndexOf(arg, ':') == |name| && arg[..|name|] == name
  {
    var arg := name + ":" + args;
    assert arg[|name|] == ':' && arg[..|name|] == name;
  }

  lemma OtherMessage(w: World, st: State, msg: string, arg: string)
    requires msg !in {"start", "stop", "restart"}
    ensures Step(w, st, Message(msg, arg)) == st && Step(w, st, Perform(Other)) == st
  {
  }

  // ----- classes

  /** Stopping or resetting a class marks exactly its services, each as if alone. */
  lemma ClassCommand(w: World, st: State, class_: string, i: nat)
    requires i < |st.services|
    ensures var s := Step(w, st, Perform(ClassStop(class_)));
            s == st.(services := s.services) && |s.services| == |st.services|
            && if st.services[i].classname == class_ then Stopped(st, With(st, i, s.services[i]), i, DISABLED)
               else s.services[i] == st.services[i]
    ensures var s := Step(w, st, Perform(ClassReset(class_)));
            s == st.(services := s.services) && |s.services| == |st.services|
            && if st.services[i].classname == class_
               then Stopped(st, With(st, i, s.services[i]), i, if RC_DISABLED in st.services[i].flags then DISABLED else RESET)
               else s.services[i] == st.services[i]
  {
    hide ClassHaltFrom, Stopped, Halt;
    ClassHaltEffect(st, class_, DISABLED, 0, i);
    ClassHaltEffect(st, class_, RESET, 0, i);
    HaltStops(st, i, DISABLED);
    HaltStops(st, i, RESET);
    HaltIsWith(st, i, DISABLED);
    HaltIsWith(st, i, RESET);
  }

  lemma HaltIsWith(st: State, i: nat, how: Flag)
    requires i < |st.services|
    ensures Halt(st, i, how) == With(st, i, Halt(st, i, how).services[i])
  {
  }

  /** Starting a class asks for exactly its services that are not disabled; each is started from a
      state in which it is as it was. */
  lemma ClassStartCommand(w: World, st: State, class_: string, i: nat) returns (u: State, t: State)
    requires i < |st.services|
    ensures var s, v := Step(w, st, Perform(ClassStart(class_))), st.services[i];
            && |s.services| == |st.services| == |u.services| == |t.services| && u.services[i] == v && s.services[i] == t.services[i]
            && st.trace <= s.trace
            && (Requested(i) in s.trace[|st.trace|..] <==> v.classname == class_ && DISABLED !in v.flags)
            && if v.classname == class_ && DISABLED !in v.flags then
                 Started(w, u, t, i, false, [Requested(i)]) && st.tick <= u.tick
               else s.services[i] == v
  {
    hide ClassStartFrom, Started;
    u, t := ClassStartsOne(w, st, class_, 0, i);
    var items := ClassStartEffect(w, st, class_, 0, i);
    assert ClassStartFrom(w, st, class_, 0).trace[|st.trace|..] == items;
  }

  lemma {:induction false} ClassStartsOne(w: World, st: State, class_: string, k: nat, i: nat) returns (u: State, t: State)
    requires k <= |st.services| && i < |st.services|
    ensures var s, v := ClassStartFrom(w, st, class_, k), st.services[i];
            && |s.services| == |st.services| == |u.services| == |t.services| && u.services[i] == v && s.services[i] == t.services[i]
            && if k <= i && v.classname == class_ && DISABLED !in v.flags then
                 Started(w, u, t, i, false, [Requested(i)]) && st.tick <= u.tick
               else s.services[i] == v
    decreases |st.services| - k
  {
    hide Request, Started;
    u, t := st, st;
    if k < |st.services| {
      var v := st.services[k];
      if v.classname == class_ && DISABLED !in v.flags {
        var r := Request(w, st, k, false);
        RequestStarts(w, st, k, false);
        RequestTick(w, st, k);
        StartedOthers(w, st, r, k, i);
        u, t := ClassStartsOne(w, r, class_, k + 1, i);
        if k == i { u, t := st, r; }
      } else {
        u, t := ClassStartsOne(w, st, class_, k + 1, i);
      }
    }
  }

  lemma RequestTick(w: World, st: State, i: nat)
    requires i < |st.services|
    ensures st.tick <= Request(w, st, i, false).tick
  {
  }

  lemma StartedOthers(w: World, st: State, s: State, k: nat, i: nat)
    requires k < |st.services| == |s.services| && i < |st.services| && Started(w, st, s, k, false, [Requested(k)])
    ensures i != k ==> s.services[i] == st.services[i]
  {
  }

  // ----- exits

  function Performs(cs: seq<Command>): seq<Event> {
    if cs == [] then [] else [Perform(cs[0])] + Performs(cs[1..])
  }

  lemma {:induction false} AllPerformed(w: World, st: State, cs: seq<Command>)
    ensures DoAll(w, st, cs) == Run(w, st, Performs(cs))
    decreases |cs|
  {
    hide Do;
    if cs != [] {
      assert Performs(cs)[1..] == Performs(cs[1..]);
      AllPerformed(w, Do(w, st, cs[0]), cs[1..]);
    }
  }

  /** The exit of a service's process: it is gone, and the commands given for a restart are run in
      order exactly if the service waits for one. */
  lemma ExitEvent(w: World, st: State, pid: nat, i: nat) returns (exited: State)
    requires Inv(st) && pid != 0 && i < |st.services| && st.services[i].pid == pid
    ensures |exited.services| == |st.services| && OthersSame(st, exited, i) && exited.trace == st.trace && exited.tick == st.tick
    ensures exited.owner == st.owner - {pid} && exited.needsRestart == st.needsRestart
    ensures var v, u := st.services[i], exited.services[i];
            && SameConfig(u, v) && u.pid == 0 && u.timeStarted == v.timeStarted && RUNNING !in u.flags
            && (RESTARTING in u.flags <==> v.flags !! {ONESHOT, DISABLED, RESET})
            && (DISABLED in u.flags <==> DISABLED in v.flags || ONESHOT in v.flags) && (RESET in u.flags <==> RESET in v.flags)
    ensures Step(w, st, Signal([pid])) ==
      if RESTARTING in exited.services[i].flags then Run(w, exited, Performs(st.services[i].onrestart)) else exited
  {
    hide FindPid, AfterExit, DoAll, Timed, Spaced, OneshotRequested;
    exited := Exited(st, pid);
    var k := FindPid(st.services, pid);
    assert Owned(st, i) && Owned(st, k) && k == i && Lifecycle(st.services[i]);
    AfterExitFlags(st.services[i]);
    ExitKeepsConfig(st.services[i]);
    ExitMarks(st.services[i]);
    AllPerformed(w, exited, st.services[i].onrestart);
    OneSignal(w, st, pid);
    assert exited.services[i] == AfterExit(st.services[i]);
    assert Reap(w, st, pid) ==
      if RESTARTING in exited.services[i].flags then DoAll(w, exited, exited.services[i].onrestart) else exited;
  }

  lemma ExitMarks(v: Service)
    requires RESTARTING !in v.flags
    ensures var u := AfterExit(v);
            && (RESTARTING in u.flags <==> u.flags * {DISABLED, RESET} == {}) && u.timeStarted == v.timeStarted
            && (DISABLED in u.flags <==> DISABLED in v.flags || ONESHOT in v.flags) && (RESET in u.flags <==> RESET in v.flags)
  {
  }

  lemma OneSignal(w: World, st: State, pid: nat)
    ensures Step(w, st, Signal([pid])) == Reap(w, st, pid)
  {
    hide Reap;
    assert [pid][1..] == [] && ReapAll(w, Reap(w, st, pid), []) == Reap(w, st, pid);
  }

  /** The exit of a process that no service has. */
  lemma UnknownExit(w: World, st: State, pid: nat)
    requires pid != 0 && forall j :: 0 <= j < |st.services| ==> st.services[j].pid != pid
    ensures Step(w, st, Signal([pid])) == st.(owner := st.owner - {pid})
  {
    OneSignal(w, st, pid);
  }

  /** Several exits are taken one after the other. */
  lemma SignalInTurn(w: World, st: State, pids: seq<nat>)
    requires pids != []
    ensures Step(w, st, Signal(pids)) == Step(w, Step(w, st, Signal([pids[0]])), Signal(pids[1..]))
  {
    hide Reap;
    OneSignal(w, st, pids[0]);
  }

  // ----- the timer

  /** A service that waits and is due is started, from a state in which it is as it was but does not
      wait; one that waits and is not due is left alone. */
  lemma TimerStarts(w: World, st: State, i: nat) returns (u: State, t: State)
    requires Monotone(w) && i < |st.services|
    ensures var s, v := Step(w, st, Timer), st.services[i];
            && |s.services| == |st.services| == |u.services| == |t.services| && st.tick <= u.tick
            && s.services[i] == t.services[i]
            && if RESTARTING in v.flags && v.timeStarted + 5 <= w.clock(u.tick) then
                 u.services[i] == v.(flags := v.flags - {RESTARTING})
                 && Started(w, u.(tick := u.tick + 1), t, i, false, [])
               else s.services[i] == v
  {
    hide RestartFrom, Started;
    u, t := TimerStartsFrom(w, st.(needsRestart := 0), 0, i);
  }

  lemma {:induction false} TimerStartsFrom(w: World, st: State, k: nat, i: nat) returns (u: State, t: State)
    requires k <= |st.services| && i < |st.services|
    ensures var s, v := RestartFrom(w, st, k), st.services[i];
            && |s.services| == |st.services| == |u.services| == |t.services| && st.tick <= u.tick
            && s.services[i] == t.services[i]
            && if k <= i && RESTARTING in v.flags && v.timeStarted + 5 <= w.clock(u.tick) then
                 u.services[i] == v.(flags := v.flags - {RESTARTING})
                 && Started(w, u.(tick := u.tick + 1), t, i, false, [])
               else s.services[i] == v
    decreases |st.services| - k
  {
    hide Started, RestartIfNeeded;
    u, t := st, st;
    if k < |st.services| {
      var v := st.services[k];
      if RESTARTING in v.flags {
        var r := RestartIfNeeded(w, st, k);
        var d := RestartStarts(w, st, k, i);
        u, t := TimerStartsFrom(w, r, k + 1, i);
        if k == i { u, t := d, r; }
      } else {
        u, t := TimerStartsFrom(w, st, k + 1, i);
      }
    }
  }

  lemma RestartStarts(w: World, st: State, k: nat, i: nat) returns (d: State)
    requires k < |st.services| && i < |st.services|
    ensures var r, v := RestartIfNeeded(w, st, k), st.services[k];
            && d == With(st, k, v.(flags := v.flags - {RESTARTING})) && st.tick <= r.tick
            && (i != k ==> r.services[i] == st.services[i])
            && if v.timeStarted + 5 <= w.clock(st.tick) then Started(w, d.(tick := d.tick + 1), r, k, false, [])
               else r.services == st.services
  {
    var v := st.services[k];
    d := With(st, k, v.(flags := v.flags - {RESTARTING}));
    LaunchStarts(w, d.(tick := d.tick + 1), k, false);
  }
}
