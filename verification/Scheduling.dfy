/** When services are restarted, and when they are not. */
module Scheduling {
  import opened Supervisor
  import opened Supervision

  predicate Waiting(st: State, i: nat)
    requires i < |st.services|
  {
    RESTARTING in st.services[i].flags
  }

  function DueTime(v: Service): nat {
    v.timeStarted + 5
  }

  // ----- the restart timer

  /** needsRestart is the earliest due time of the waiting services among the first n, 0 without any. */
  predicate Scheduled(st: State, n: nat)
    requires n <= |st.services|
  {
    && (st.needsRestart == 0 ==> forall i :: 0 <= i < n ==> !Waiting(st, i))
    && (forall i :: 0 <= i < n && Waiting(st, i) ==> st.needsRestart <= DueTime(st.services[i]))
    && (st.needsRestart != 0 ==>
          exists i :: 0 <= i < n && Waiting(st, i) && st.needsRestart == DueTime(st.services[i]))
  }

  predicate NoneDue(st: State, n: nat, now: nat)
    requires n <= |st.services|
  {
    forall i :: 0 <= i < n && Waiting(st, i) ==> now < DueTime(st.services[i])
  }

  /** What the timer does to one waiting service: start it if it is due, schedule it otherwise. */
  lemma RestartOne(w: World, st: State, i: nat)
    requires i < |st.services| && Waiting(st, i)
    ensures var s := RestartIfNeeded(w, st, i);
            && (forall j :: 0 <= j < |s.services| && j != i ==> s.services[j] == st.services[j])
            && s.tick >= st.tick
            && (if DueTime(st.services[i]) <= w.clock(st.tick) then !Waiting(s, i) && s.needsRestart == st.needsRestart
                else s.services == st.services &&
                     s.needsRestart == if DueTime(st.services[i]) < st.needsRestart || st.needsRestart == 0
                                       then DueTime(st.services[i]) else st.needsRestart)
  {
  }

  lemma {:induction false} RestartFromSchedules(w: World, st: State, i: nat, now: nat)
    requires i <= |st.services| && Monotone(w) && now <= w.clock(st.tick)
    requires Scheduled(st, i) && NoneDue(st, i, now)
    ensures var s := RestartFrom(w, st, i);
            Scheduled(s, |s.services|) && NoneDue(s, |s.services|, now) && s.tick >= st.tick
    decreases |st.services| - i
  {
    hide RestartIfNeeded;
    if i < |st.services| {
      if Waiting(st, i) {
        RestartOne(w, st, i);
        var s := RestartIfNeeded(w, st, i);
        forall j | 0 <= j < i ensures Waiting(s, j) == Waiting(st, j) && s.services[j] == st.services[j] {
        }
        if s.services == st.services && s.needsRestart == DueTime(st.services[i]) {
          assert Waiting(s, i);
        } else if s.needsRestart != 0 {
          var j :| 0 <= j < i && Waiting(st, j) && st.needsRestart == DueTime(st.services[j]);
          assert Waiting(s, j);
        }
        RestartFromSchedules(w, s, i + 1, now);
      } else {
        RestartFromSchedules(w, st, i + 1, now);
      }
    }
  }

  /** After restart_processes no service that was due when it began is still waiting, and the
      next restart time is exactly the earliest due time of those that are. */
  lemma RestartSchedules(w: World, st: State)
    requires Monotone(w)
    ensures var s := RestartProcesses(w, st);
            && (s.needsRestart == 0 <==> forall i :: 0 <= i < |s.services| ==> !Waiting(s, i))
            && Scheduled(s, |s.services|)
            && (forall i :: 0 <= i < |s.services| && Waiting(s, i) ==> w.clock(st.tick) < DueTime(s.services[i]))
  {
    hide RestartFrom;
    RestartFromSchedules(w, st.(needsRestart := 0), 0, w.clock(st.tick));
  }

  /** The timeout of the main loop in milliseconds; busy if the action queue has work. */
  function PollTimeout(w: World, st: State, busy: bool): int {
    if busy then 0
    else if st.needsRestart == 0 then -1
    else if st.needsRestart < w.clock(st.tick) then 0
    else (st.needsRestart - w.clock(st.tick)) * 1000
  }

  /** The main loop sleeps without limit only if nothing waits, never past a due restart, not shorter
      than up to the first one, and not at all only if there is work or a restart is due now. */
  lemma NeverOversleeps(w: World, st: State, busy: bool)
    requires Monotone(w)
    ensures var s := RestartProcesses(w, st);
            var t, now := PollTimeout(w, s, busy), w.clock(s.tick);
            && (t == -1 <==> !busy && forall i :: 0 <= i < |s.services| ==> !Waiting(s, i))
            && (t == 0 <==> busy || exists i :: 0 <= i < |s.services| && Waiting(s, i) && DueTime(s.services[i]) <= now)
            && (t > 0 ==> forall i :: 0 <= i < |s.services| && Waiting(s, i) ==> now * 1000 + t <= DueTime(s.services[i]) * 1000)
            && (t > 0 ==> exists i :: 0 <= i < |s.services| && Waiting(s, i) && now * 1000 + t == DueTime(s.services[i]) * 1000)
  {
    hide RestartProcesses;
    RestartSchedules(w, st);
  }

  // ----- a stop lasts until a start is asked for

  /** Neither running nor going to: no process that will be restarted when it exits. */
  predicate Halted(v: Service) {
    && RUNNING !in v.flags && RESTARTING !in v.flags
    && (v.pid == 0 || DISABLED in v.flags || RESET in v.flags)
  }

  predicate Untouched(trace: seq<Item>, i: nat) {
    forall x :: x in trace ==> x.i != i
  }

  lemma HaltHalts(st: State, i: nat, how: Flag)
    requires i < |st.services|
    ensures Halted(Halt(st, i, how).services[i])
  {
  }

  lemma ExitHalted(v: Service)
    requires Halted(v)
    ensures v.pid != 0 ==> Halted(AfterExit(v))
  {
    var flags := v.flags - {RUNNING} + if ONESHOT in v.flags then {DISABLED} else {};
    assert DISABLED in v.flags ==> DISABLED in flags * {DISABLED, RESET};
    assert RESET in v.flags ==> RESET in flags * {DISABLED, RESET};
  }

  /** Starting service k adds at most a fork of k to the history. */
  lemma LaunchEffect(w: World, st: State, k: nat, dynamicArgs: bool, i: nat)
    requires k < |st.services| && i < |st.services| && i != k
    ensures var s := Launch(w, st, k, dynamicArgs);
            s.services[i] == st.services[i] && st.trace <= s.trace && Untouched(s.trace[|st.trace|..], i)
  {
    hide ForkResult;
  }

  /** A request for another service. */
  lemma RequestHalted(w: World, st: State, k: nat, dynamicArgs: bool, i: nat)
    requires k < |st.services| && i < |st.services| && i != k
    ensures var s := Request(w, st, k, dynamicArgs);
            s.services[i] == st.services[i] && st.trace <= s.trace && Untouched(s.trace[|st.trace|..], i)
  {
    hide Launch;
    var r, s := st.(trace := st.trace + [Requested(k)]), Request(w, st, k, dynamicArgs);
    LaunchEffect(w, r, k, dynamicArgs, i);
    assert s.trace[|st.trace|..] == [Requested(k)] + s.trace[|r.trace|..];
  }

  /** The timer at another service. */
  lemma RestartHalted(w: World, st: State, k: nat, i: nat)
    requires k < |st.services| && i < |st.services| && i != k
    ensures var s := RestartIfNeeded(w, st, k);
            s.services[i] == st.services[i] && st.trace <= s.trace && Untouched(s.trace[|st.trace|..], i)
  {
    hide Launch;
    var v := st.services[k];
    LaunchEffect(w, With(st.(tick := st.tick + 1), k, v.(flags := v.flags - {RESTARTING})), k, false, i);
  }

  /** A move lengthens the history, and a halted service stays halted without a request. */
  lemma ApplyHalted(w: World, st: State, m: Move, i: nat) returns (t: seq<Item>)
    requires i < |st.services| && Halted(st.services[i])
    ensures Apply(w, st, m).trace == st.trace + t
    ensures Requested(i) !in t ==> Untouched(t, i) && Halted(Apply(w, st, m).services[i])
  {
    hide FindPid, Request, RestartIfNeeded, AfterExit, ForkResult;
    ApplyGrows(w, st, m);
    t := Apply(w, st, m).trace[|st.trace|..];
    match m
    case MRequest(k, dynamicArgs) =>
      if k == i {
        ApplyRequests(w, st, k, dynamicArgs);
      } else if k < |st.services| {
        RequestHalted(w, st, k, dynamicArgs, i);
      }
    case MRestart(k) =>
      if k < |st.services| && k != i {
        RestartHalted(w, st, k, i);
      }
    case MExit(pid) => ExitHalted(st.services[i]);
    case MHalt(k, how) =>
    case MReset =>
  }

  lemma ApplyRequests(w: World, st: State, k: nat, dynamicArgs: bool)
    requires k < |st.services|
    ensures var s := Request(w, st, k, dynamicArgs);
            st.trace <= s.trace && Requested(k) in s.trace[|st.trace|..]
  {
    var s := Request(w, st, k, dynamicArgs);
    assert s.trace[|st.trace|..][0] == Requested(k);
  }

  lemma {:induction false} ApplyAllHalted(w: World, st: State, ms: seq<Move>, i: nat) returns (t: seq<Item>)
    requires i < |st.services| && Halted(st.services[i])
    ensures st.trace + t <= ApplyAll(w, st, ms).trace
    ensures var s := ApplyAll(w, st, ms);
            Requested(i) in t || (st.trace + t == s.trace && Untouched(t, i) && Halted(s.services[i]))
    decreases |ms|
  {
    hide Apply, Halted;
    if ms == [] {
      t := [];
      assert st.trace + t == st.trace;
    } else {
      var s := Apply(w, st, ms[0]);
      t := ApplyHalted(w, st, ms[0], i);
      if Requested(i) in t {
        ApplyAllGrows(w, s, ms[1..]);
      } else {
        var u := ApplyAllHalted(w, s, ms[1..], i);
        assert st.trace + t + u == st.trace + (t + u);
        if Requested(i) in u { assert Requested(i) in t + u; }
        t := t + u;
      }
    }
  }

  lemma ApplyGrows(w: World, st: State, m: Move)
    ensures st.trace <= Apply(w, st, m).trace
  {
    hide FindPid;
  }

  lemma {:induction false} ApplyAllGrows(w: World, st: State, ms: seq<Move>)
    ensures st.trace <= ApplyAll(w, st, ms).trace
    decreases |ms|
  {
    hide Apply;
    if ms != [] {
      ApplyGrows(w, st, ms[0]);
      ApplyAllGrows(w, Apply(w, st, ms[0]), ms[1..]);
    }
  }

  /** A stopped or reset service is not started by anything that happens afterwards, exits of its
      old process included, unless a start of it is asked for. */
  lemma StopLasts(w: World, st: State, i: nat, how: Flag, es: seq<Event>)
    requires i < |st.services|
    ensures var h := Halt(st, i, how);
            var s := Run(w, h, es);
            && h.trace <= s.trace
            && (Requested(i) !in s.trace[|h.trace|..] ==>
                  (forall x :: x in s.trace[|h.trace|..] ==> x.i != i) && Halted(s.services[i]))
  {
    hide Halt, Run, Halted;
    var h := Halt(st, i, how);
    HaltHalts(st, i, how);
    var ms := RunMoves(w, h, es);
    var t := ApplyAllHalted(w, h, ms, i);
    var s := Run(w, h, es);
    assert s.trace[|h.trace|..][..|t|] == t;
  }

  /** A restart whose fork failed is not tried again by the timer. */
  lemma FailedForkHalts(w: World, st: State, i: nat, es: seq<Event>)
    requires i < |st.services| && Waiting(st, i) && st.services[i].pid == 0
    requires RUNNING !in RestartIfNeeded(w, st, i).services[i].flags && DueTime(st.services[i]) <= w.clock(st.tick)
    ensures var h := RestartIfNeeded(w, st, i);
            var s := Run(w, h, es);
            && h.trace <= s.trace
            && (Requested(i) !in s.trace[|h.trace|..] ==> forall x :: x in s.trace[|h.trace|..] ==> x.i != i)
  {
    hide Run;
    var h := RestartIfNeeded(w, st, i);
    assert Halted(h.services[i]);
    var ms := RunMoves(w, h, es);
    var t := ApplyAllHalted(w, h, ms, i);
    var s := Run(w, h, es);
    assert s.trace[|h.trace|..][..|t|] == t;
  }

  // ----- classes

  lemma {:induction false} ClassHaltEffect(st: State, class_: string, how: Flag, i: nat, j: nat)
    requires i <= |st.services| && j < |st.services|
    ensures var s := ClassHaltFrom(st, class_, how, i);
            && s.services[j] == (if i <= j && st.services[j].classname == class_ then Halt(st, j, how).services[j]
                                 else st.services[j])
            && s == st.(services := s.services)
    decreases |st.services| - i
  {
    if i < |st.services| {
      var s := if st.services[i].classname == class_ then Halt(st, i, how) else st;
      ClassHaltEffect(s, class_, how, i + 1, j);
    }
  }

  lemma RequestEffect(w: World, st: State, i: nat, j: nat) returns (t: seq<Item>)
    requires i < |st.services| && j < |st.services|
    ensures var s := Request(w, st, i, false);
            && s.trace == st.trace + t && (Requested(j) in t <==> i == j)
            && (i != j ==> s.services[j] == st.services[j])
  {
    var s := Request(w, st, i, false);
    t := s.trace[|st.trace|..];
    assert t[0] == Requested(i);
  }

  lemma {:induction false} ClassStartEffect(w: World, st: State, class_: string, i: nat, j: nat) returns (t: seq<Item>)
    requires i <= |st.services| && j < |st.services|
    ensures ClassStartFrom(w, st, class_, i).trace == st.trace + t
    ensures Requested(j) in t <==> i <= j && st.services[j].classname == class_ && DISABLED !in st.services[j].flags
    decreases |st.services| - i
  {
    hide Request;
    if i == |st.services| {
      t := [];
      assert st.trace + t == st.trace;
    } else {
      var v := st.services[i];
      if v.classname == class_ && DISABLED !in v.flags {
        var s := Request(w, st, i, false);
        t := RequestEffect(w, st, i, j);
        var u := ClassStartEffect(w, s, class_, i + 1, j);
        assert st.trace + t + u == st.trace + (t + u);
        t := t + u;
      } else {
        t := ClassStartEffect(w, st, class_, i + 1, j);
      }
    }
  }

  /** Starting a class again asks exactly for its services that were reset, not stopped, and that
      neither were disabled nor are disabled by their definition. */
  lemma ClassRestart(w: World, st: State, class_: string, how: Flag, i: nat)
    requires i < |st.services| && (how == DISABLED || how == RESET)
    ensures var h := ClassHaltFrom(st, class_, how, 0);
            var s := ClassStartFrom(w, h, class_, 0);
            && st.trace <= s.trace
            && (Requested(i) in s.trace[|st.trace|..] <==>
                  st.services[i].classname == class_ && how == RESET && st.services[i].flags !! {DISABLED, RC_DISABLED})
  {
    hide ClassHaltFrom, ClassStartFrom;
    var h := ClassHaltFrom(st, class_, how, 0);
    ClassHaltEffect(st, class_, how, 0, i);
    var t := ClassStartEffect(w, h, class_, 0, i);
    assert ClassStartFrom(w, h, class_, 0).trace[|st.trace|..] == t;
  }

  // ----- the configuration

  predicate SameConfig(v: Service, was: Service) {
    && v.name == was.name && v.classname == was.classname && v.onrestart == was.onrestart
    && v.flags * CONFIG == was.flags * CONFIG
  }

  lemma LaunchKeepsConfig(w: World, st: State, i: nat, dynamicArgs: bool)
    requires i < |st.services|
    ensures SameConfig(Launch(w, st, i, dynamicArgs).services[i], st.services[i])
    ensures forall j :: 0 <= j < |st.services| && j != i ==> Launch(w, st, i, dynamicArgs).services[j] == st.services[j]
  {
    hide ForkResult;
  }

  lemma ExitKeepsConfig(v: Service)
    ensures SameConfig(AfterExit(v), v)
  {
  }

  lemma ApplyKeepsConfig(w: World, st: State, m: Move, i: nat)
    requires i < |st.services|
    ensures SameConfig(Apply(w, st, m).services[i], st.services[i])
  {
    hide FindPid, Launch, AfterExit;
    match m
    case MRequest(k, dynamicArgs) =>
      if k < |st.services| { LaunchKeepsConfig(w, st.(trace := st.trace + [Requested(k)]), k, dynamicArgs); }
    case MRestart(k) =>
      if k < |st.services| {
        var v := st.services[k];
        LaunchKeepsConfig(w, With(st.(tick := st.tick + 1), k, v.(flags := v.flags - {RESTARTING})), k, false);
      }
    case MExit(pid) => ExitKeepsConfig(st.services[i]);
    case MHalt(k, how) =>
    case MReset =>
  }

  lemma {:induction false} ApplyAllKeepsConfig(w: World, st: State, ms: seq<Move>, i: nat)
    requires i < |st.services|
    ensures SameConfig(ApplyAll(w, st, ms).services[i], st.services[i])
    decreases |ms|
  {
    hide Apply;
    if ms != [] {
      ApplyKeepsConfig(w, st, ms[0], i);
      ApplyAllKeepsConfig(w, Apply(w, st, ms[0]), ms[1..], i);
    }
  }

  /** No run changes what the configuration says about a service. */
  lemma RunKeepsConfig(w: World, st: State, es: seq<Event>, i: nat)
    requires i < |st.services|
    ensures SameConfig(Run(w, st, es).services[i], st.services[i])
  {
    hide Run, SameConfig;
    var ms := RunMoves(w, st, es);
    ApplyAllKeepsConfig(w, st, ms, i);
  }
}
