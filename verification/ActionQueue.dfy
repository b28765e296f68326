/** The action queue and the interpreter that runs one command at a time. */
module ActionQueue {
  import opened Sequences

  // ----- the interpreter on values

  /** An action being run: how many of its commands were started. */
  datatype Current<C> = Idle | Running(commands: seq<C>, done: nat)

  /** The command lists of the waiting actions, and the action at hand. */
  datatype Machine<C> = Machine(pending: seq<seq<C>>, current: Current<C>)

  predicate Sound<C>(m: Machine<C>) {
    m.current.Running? ==> m.current.done <= |m.current.commands| && (m.current.done == 0 ==> m.current.commands == [])
  }

  /** execute_one_command: the machine afterwards, and the command it ran, if any. */
  function Execute<C>(m: Machine<C>): (r: (Machine<C>, seq<C>))
    requires Sound(m)
    ensures Sound(r.0) && |r.1| <= 1
  {
    if m.current.Running? && 0 < m.current.done < |m.current.commands| then
      var Running(cs, done) := m.current;
      (m.(current := Running(cs, done + 1)), [cs[done]])
    else if m.pending == [] then
      (m.(current := Idle), [])
    else
      var cs := m.pending[0];
      (Machine(m.pending[1..], Running(cs, if cs == [] then 0 else 1)), if cs == [] then [] else [cs[0]])
  }

  function Enqueue<C>(m: Machine<C>, cs: seq<C>): (r: Machine<C>)
    requires Sound(m)
    ensures Sound(r)
  {
    m.(pending := m.pending + [cs])
  }

  /** A pass of the main loop, or an action put on the queue by a command, a trigger or a property. */
  datatype Step<C> = Pass | Queue(commands: seq<C>)

  function Run<C>(m: Machine<C>, steps: seq<Step<C>>): (r: Machine<C>)
    requires Sound(m)
    ensures Sound(r)
    decreases |steps|
  {
    if steps == [] then m
    else Run(match steps[0] case Pass => Execute(m).0 case Queue(cs) => Enqueue(m, cs), steps[1..])
  }

  /** The commands run, in order. */
  function Executed<C>(m: Machine<C>, steps: seq<Step<C>>): seq<C>
    requires Sound(m)
    decreases |steps|
  {
    if steps == [] then []
    else
      match steps[0]
      case Pass => Execute(m).1 + Executed(Execute(m).0, steps[1..])
      case Queue(cs) => Executed(Enqueue(m, cs), steps[1..])
  }

  /** The commands still to be run, in queue order. */
  function Left<C>(m: Machine<C>): seq<C>
    requires Sound(m)
  {
    (if m.current.Running? then m.current.commands[m.current.done..] else []) + Concat(m.pending)
  }

  /** The commands of the actions queued, in the order they were queued. */
  function Queued<C>(steps: seq<Step<C>>): seq<C> {
    if steps == [] then []
    else (match steps[0] case Pass => [] case Queue(cs) => cs) + Queued(steps[1..])
  }

  /** A pass runs the first command left, or drops an action that has none. */
  lemma ExecuteTakesFirst<C>(m: Machine<C>)
    requires Sound(m)
    ensures Left(m) == Execute(m).1 + Left(Execute(m).0)
  {
    if m.current.Running? && 0 < m.current.done < |m.current.commands| {
      var Running(cs, done) := m.current;
      assert cs[done..] == [cs[done]] + cs[done + 1..];
    } else if m.pending != [] {
      var cs := m.pending[0];
      if cs != [] {
        assert cs == [cs[0]] + cs[1..];
      }
    }
  }

  /** Over any run: the commands run so far and those left are those that were left at the start
      and then those of the actions queued meanwhile, in queue order, each once. */
  lemma {:induction false} RunConserves<C>(m: Machine<C>, steps: seq<Step<C>>)
    requires Sound(m)
    ensures Executed(m, steps) + Left(Run(m, steps)) == Left(m) + Queued(steps)
    decreases |steps|
  {
    hide Execute, Left, Concat, Enqueue, Run, Executed, Queued;
    if steps == [] {
      NoSteps(m);
      assert [] + Left(m) == Left(m) + [];
    } else {
      FirstStep(m, steps);
      match steps[0]
      case Pass =>
        var (s, ran) := Execute(m);
        ExecuteTakesFirst(m);
        RunConserves(s, steps[1..]);
        ThreeParts(ran, Executed(s, steps[1..]), Left(Run(s, steps[1..])), Left(s), Queued(steps[1..]));
      case Queue(cs) =>
        EnqueueLeft(m, cs);
        RunConserves(Enqueue(m, cs), steps[1..]);
        assert Left(m) + cs + Queued(steps[1..]) == Left(m) + (cs + Queued(steps[1..]));
    }
  }

  lemma ThreeParts<C>(a: seq<C>, b: seq<C>, c: seq<C>, d: seq<C>, e: seq<C>)
    requires b + c == d + e
    ensures a + b + c == a + d + e
  {
    assert a + b + c == a + (b + c);
    assert a + d + e == a + (d + e);
  }

  lemma NoSteps<C>(m: Machine<C>)
    requires Sound(m)
    ensures Run(m, []) == m && Executed(m, []) == [] && Queued<C>([]) == []
  {
  }

  lemma FirstStep<C>(m: Machine<C>, steps: seq<Step<C>>)
    requires Sound(m) && steps != []
    ensures steps[0].Pass? ==>
      && Run(m, steps) == Run(Execute(m).0, steps[1..])
      && Executed(m, steps) == Execute(m).1 + Executed(Execute(m).0, steps[1..])
      && Queued(steps) == Queued(steps[1..])
    ensures steps[0].Queue? ==>
      var cs := steps[0].commands;
      && Run(m, steps) == Run(Enqueue(m, cs), steps[1..])
      && Executed(m, steps) == Executed(Enqueue(m, cs), steps[1..])
      && Queued(steps) == cs + Queued(steps[1..])
  {
    hide Execute, Enqueue;
    assert [] + Queued(steps[1..]) == Queued(steps[1..]);
  }

  lemma EnqueueLeft<C>(m: Machine<C>, cs: seq<C>)
    requires Sound(m)
    ensures Left(Enqueue(m, cs)) == Left(m) + cs
  {
    ConcatAppend(m.pending, cs);
  }

  /** A bound on the passes until the machine is idle with an empty queue. */
  function Work<C>(m: Machine<C>): nat
    requires Sound(m)
  {
    |Left(m)| + 2 * |m.pending| + if m.current.Running? then 1 else 0
  }

  function Passes<C>(n: nat): seq<Step<C>> {
    if n == 0 then [] else [Pass] + Passes(n - 1)
  }

  lemma PassWorks<C>(m: Machine<C>)
    requires Sound(m) && Work(m) > 0
    ensures Work(Execute(m).0) < Work(m)
  {
    hide Left, Concat;
    ExecuteTakesFirst(m);
    if m.current.Running? && 0 < m.current.done < |m.current.commands| {
    } else if m.pending == [] {
      if !m.current.Running? { NothingLeft(m); }
      var s := Execute(m).0;
      assert s.pending == [] && s.current == Idle;
      NothingLeft(s);
    }
  }

  lemma NothingLeft<C>(m: Machine<C>)
    requires Sound(m) && m.pending == [] && m.current == Idle
    ensures Left(m) == []
  {
  }

  /** Without anything new queued, enough passes run everything that is left and end idle. */
  lemma {:induction false} Drains<C>(m: Machine<C>, n: nat)
    requires Sound(m) && Work(m) <= n
    ensures Executed(m, Passes(n)) == Left(m)
    ensures Run(m, Passes(n)) == Machine([], Idle)
    decreases n
  {
    hide Execute, Left, Concat;
    if n > 0 {
      var s := Execute(m).0;
      assert Passes<C>(n)[1..] == Passes(n - 1);
      ExecuteTakesFirst(m);
      if Work(m) > 0 {
        PassWorks(m);
      } else {
        IdlePass(m);
      }
      Drains(s, n - 1);
    } else {
      assert Left(m) == [];
    }
  }

  lemma IdlePass<C>(m: Machine<C>)
    requires Sound(m) && Work(m) == 0
    ensures Work(Execute(m).0) == 0
  {
  }

  // ----- the queue in memory

  /** struct action with its queue links; the head of the queue is one without commands. */
  class Action<C(!new)> {
    const name: string
    const commands: seq<C>
    var next: Action?<C>
    var prev: Action?<C>

    constructor (name: string, commands: seq<C>)
      ensures this.name == name && this.commands == commands && next == null && prev == null
    {
      this.name, this.commands, next, prev := name, commands, null, null;
    }
  }

  ghost predicate Distinct<C(!new)>(nodes: seq<Action<C>>) {
    forall i, j :: 0 <= i < j < |nodes| ==> nodes[i] != nodes[j]
  }

  /** Following next from all[0] visits all in order and returns. */
  ghost predicate Forward<C(!new)>(all: seq<Action<C>>)
    reads all
  {
    forall i {:trigger all[i].next} :: 0 <= i < |all| ==> all[i].next == all[if i + 1 < |all| then i + 1 else 0]
  }

  ghost predicate Backward<C(!new)>(all: seq<Action<C>>)
    reads all
  {
    forall i {:trigger all[i].prev} :: 0 <= i < |all| ==> all[i].prev == all[if i > 0 then i - 1 else |all| - 1]
  }

  /** The circular list with this head and these elements. */
  ghost predicate Ring<C(!new)>(head: Action<C>, elements: seq<Action<C>>)
    reads [head] + elements
  {
    var all := [head] + elements;
    Distinct(all) && Forward(all) && Backward(all)
  }

  /** list_init */
  method InitList<C(!new)>(node: Action<C>)
    modifies node
    ensures Ring(node, [])
  {
    node.next := node;
    node.prev := node;
  }

  /** The links that list_add_tail sets. */
  method SetTail<C(!new)>(head: Action<C>, item: Action<C>)
    requires head.prev != null && item != head
    modifies head`prev, item`next, item`prev, head.prev`next
    ensures head.prev == item && item.prev == old(head.prev) && old(head.prev).next == item
    ensures item != old(head.prev) ==> item.next == head
  {
    item.next := head;
    item.prev := head.prev;
    head.prev.next := item;
    head.prev := item;
  }

  /** The links that list_remove sets. */
  method SkipItem<C(!new)>(item: Action<C>)
    requires item.next != null && item.prev != null
    modifies item.next`prev, item.prev`next
    ensures old(item.next).prev == old(item.prev) && old(item.prev).next == old(item.next)
  {
    item.next.prev := item.prev;
    item.prev.next := item.next;
  }

  /** The links after all[j] was appended to the ring once more: the way forward from the head ends
      at all[j], which leads back to the head, or, if it was the last one, to itself. */
  ghost predicate Tangled<C(!new)>(all: seq<Action<C>>, j: nat)
    requires 0 < j < |all|
    reads all
  {
    var n := |all| - 1;
    && (forall i {:trigger all[i].next} :: 0 <= i <= n ==>
          all[i].next == all[if i == j then (if j == n then j else 0) else if i == n then j else i + 1])
    && (forall i {:trigger all[i].prev} :: 0 <= i <= n ==>
          all[i].prev == all[if i == 0 then j else if i == j then n else i - 1])
  }

  /** list_add_tail: appends a node that is not on the list, and tangles the list otherwise. */
  method AddTail<C(!new)>(head: Action<C>, item: Action<C>, ghost elements: seq<Action<C>>)
    requires Ring(head, elements) && item != head
    modifies head, item, elements
    ensures item !in elements ==> Ring(head, elements + [item])
    ensures forall k :: 0 <= k < |elements| && elements[k] == item ==>
      Tangled([head] + elements, k + 1)
  {
    hide Ring, Tangled;
    ghost var all := [head] + elements;
    LinkTail(head, item, elements);
    if item !in elements {
      RingLonger(head, item, elements);
    }
    forall k | 0 <= k < |elements| && elements[k] == item ensures Tangled(all, k + 1) {
      NowTangled(all, item, k + 1);
    }
  }

  /** The links after an append, whether item was on the ring or not. */
  ghost predicate Linked<C(!new)>(all: seq<Action<C>>, item: Action<C>)
    requires |all| > 0
    reads all, item
  {
    var n := |all| - 1;
    && (forall i {:trigger all[i].next} :: 0 <= i <= n ==>
          all[i].next == if i == n then item else if all[i] == item then all[0] else all[i + 1])
    && (forall i {:trigger all[i].prev} :: 0 <= i <= n ==>
          all[i].prev == if i == 0 then item else if all[i] == item then all[n] else all[i - 1])
    && item.next == (if item == all[n] then item else all[0]) && item.prev == all[n]
  }

  method LinkTail<C(!new)>(head: Action<C>, item: Action<C>, ghost elements: seq<Action<C>>)
    requires Ring(head, elements) && item != head
    modifies head, item, elements
    ensures Distinct([head] + elements) && Linked([head] + elements, item)
  {
    ghost var all := [head] + elements;
    assert all[0] == head && all[|all| - 1] == head.prev;
    assert forall i :: 0 <= i < |all| ==> all[i] == head || all[i] in elements;
    SetTail(head, item);
  }

  lemma RingLonger<C(!new)>(head: Action<C>, item: Action<C>, elements: seq<Action<C>>)
    requires Distinct([head] + elements) && Linked([head] + elements, item) && item != head && item !in elements
    ensures Ring(head, elements + [item])
  {
    var all, longer := [head] + elements, [head] + (elements + [item]);
    assert longer == all + [item];
    assert forall i :: 0 <= i < |all| ==> longer[i] == all[i] && all[i] != item;
  }

  lemma NowTangled<C(!new)>(all: seq<Action<C>>, item: Action<C>, j: nat)
    requires 0 < j < |all| && Distinct(all) && Linked(all, item) && all[j] == item
    ensures Tangled(all, j)
  {
  }

  /** list_remove */
  method Remove<C(!new)>(item: Action<C>, ghost head: Action<C>, ghost elements: seq<Action<C>>, ghost k: nat)
    requires Ring(head, elements) && k < |elements| && elements[k] == item
    modifies head, elements
    ensures Ring(head, elements[..k] + elements[k + 1..])
  {
    hide Distinct, Forward, Backward;
    ghost var all := [head] + elements;
    assert all[k + 1] == item;
    Unlink(item, all, k + 1);
    Skip(all, k + 1);
    assert all[..k + 1] + all[k + 2..] == [head] + (elements[..k] + elements[k + 1..]);
  }

  method Unlink<C(!new)>(item: Action<C>, ghost all: seq<Action<C>>, ghost j: nat)
    requires Distinct(all) && Forward(all) && Backward(all) && 0 < j < |all| && all[j] == item
    modifies all
    ensures var after := if j + 1 < |all| then j + 1 else 0;
            && (forall i {:trigger all[i].next} :: 0 <= i < |all| ==>
                  all[i].next == all[if i == j - 1 then after else if i + 1 < |all| then i + 1 else 0])
            && (forall i {:trigger all[i].prev} :: 0 <= i < |all| ==>
                  all[i].prev == all[if i == after then j - 1 else if i > 0 then i - 1 else |all| - 1])
  {
    assert all[j] in all && all[j - 1] in all && all[if j + 1 < |all| then j + 1 else 0] in all;
    SkipItem(item);
  }

  /** The ring without all[j], which its neighbours no longer lead to. */
  lemma Skip<C(!new)>(all: seq<Action<C>>, j: nat)
    requires Distinct(all) && 0 < j < |all|
    requires var after := if j + 1 < |all| then j + 1 else 0;
            && (forall i {:trigger all[i].next} :: 0 <= i < |all| ==>
                  all[i].next == all[if i == j - 1 then after else if i + 1 < |all| then i + 1 else 0])
            && (forall i {:trigger all[i].prev} :: 0 <= i < |all| ==>
                  all[i].prev == all[if i == after then j - 1 else if i > 0 then i - 1 else |all| - 1])
    ensures var rest := all[..j] + all[j + 1..];
            Distinct(rest) && Forward(rest) && Backward(rest)
  {
    var rest := all[..j] + all[j + 1..];
    forall i | 0 <= i < |rest| ensures rest[i].next == rest[if i + 1 < |rest| then i + 1 else 0] {
      assert rest[i] == all[if i < j then i else i + 1];
    }
    forall i | 0 <= i < |rest| ensures rest[i].prev == rest[if i > 0 then i - 1 else |rest| - 1] {
      assert rest[i] == all[if i < j then i else i + 1];
    }
    assert forall i :: 0 <= i < |rest| ==> rest[i] == all[if i < j then i else i + 1];
  }

  class Interpreter<C(!new)> {
    const queue: Action<C>
    var curAction: Action?<C>
    /** How many commands of the current action were started. */
    var done: nat
    ghost var waiting: seq<Action<C>>

    constructor ()
      ensures Valid() && fresh(queue) && waiting == [] && Value() == Machine([], Idle)
    {
      queue := new Action("", []);
      curAction, done, waiting := null, 0, [];
      new;
      InitList(queue);
    }

    ghost predicate Valid()
      reads this, queue, waiting
    {
      Ring(queue, waiting) && Sound(Value())
    }

    ghost function Value(): Machine<C>
      reads this
    {
      Machine(Lists(waiting), if curAction == null then Idle else Running(curAction.commands, done))
    }

    /** action_add_queue_tail, for an action that is not waiting already. */
    method QueueAction(act: Action<C>)
      requires Valid() && act != queue && act !in waiting
      modifies this`waiting, queue, act, waiting
      ensures Valid() && waiting == old(waiting) + [act]
      ensures Value() == Enqueue(old(Value()), act.commands)
    {
      hide Ring;
      AddTail(queue, act, waiting);
      waiting := waiting + [act];
    }

    lemma QueueHead()
      requires Ring(queue, waiting)
      ensures if waiting == [] then queue.next == queue else queue.next == waiting[0] != queue
    {
      var all := [queue] + waiting;
      assert all[0] == queue && (waiting != [] ==> all[1] == waiting[0]);
    }

    /** action_remove_queue_head */
    method RemoveHead() returns (act: Action?<C>)
      requires Ring(queue, waiting)
      modifies this`waiting, queue, waiting
      ensures Ring(queue, waiting)
      ensures if old(waiting) == [] then act == null && waiting == []
              else act == old(waiting)[0] && waiting == old(waiting)[1..]
    {
      hide Ring;
      QueueHead();
      if queue.next == queue { return null; }
      act := queue.next;
      Remove(act, queue, waiting, 0);
      assert waiting[..0] + waiting[1..] == waiting[1..];
      waiting := waiting[1..];
    }

    /** execute_one_command up to calling the command. */
    method ExecuteOne() returns (command: seq<C>)
      requires Valid()
      modifies this, queue, waiting
      ensures Valid() && (Value(), command) == Execute(old(Value()))
      ensures waiting == old(waiting) || (old(waiting) != [] && waiting == old(waiting)[1..])
    {
      hide Ring;
      assert old(waiting) != [] ==> Lists(old(waiting)[1..]) == Lists(old(waiting))[1..];
      if curAction == null || done == 0 || done == |curAction.commands| {
        curAction := RemoveHead();
        done := 0;
        if curAction == null { return []; }
      }
      if done == |curAction.commands| {
        assert curAction.commands == [];
        return [];
      }
      command := [curAction.commands[done]];
      done := done + 1;
    }
  }

  ghost function Lists<C(!new)>(actions: seq<Action<C>>): (css: seq<seq<C>>)
    ensures |css| == |actions| && forall i :: 0 <= i < |css| ==> css[i] == actions[i].commands
  {
    seq(|actions|, i requires 0 <= i < |actions| => actions[i].commands)
  }

  /** The documented rule, that an action already waiting stays where it is, is kept exactly
      when the action is not waiting. */
  method QueueAsDocumented<C(!new)>(head: Action<C>, item: Action<C>, ghost elements: seq<Action<C>>)
    requires Ring(head, elements) && item != head
    modifies head, item, elements
    ensures Ring(head, if item in elements then elements else elements + [item]) <==> item !in elements
  {
    AddTail(head, item, elements);
    if item in elements {
      ghost var k :| 0 <= k < |elements| && elements[k] == item;
      ghost var all := [head] + elements;
      assert all[k + 1] == item && all[0] == head;
      assert all[k + 1].next == if k + 1 < |elements| then head else item;
      NotARing(head, elements, k);
    }
  }

  /** A list in which the k-th element leads to the head too early, or to itself. */
  lemma NotARing<C(!new)>(head: Action<C>, elements: seq<Action<C>>, k: nat)
    requires Distinct([head] + elements) && k < |elements|
    requires elements[k].next == if k + 1 < |elements| then head else elements[k]
    ensures !Ring(head, elements)
  {
    var all := [head] + elements;
    var after := if k + 1 < |elements| then k + 2 else 0;
    assert all[k + 1] == elements[k] && all[0] == head;
    assert all[k + 1].next != all[after];
  }
}
