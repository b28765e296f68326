/** What the interpreter runs when actions are queued while they are waiting already. */
module ActionRequeue {
  import opened ActionQueue
  import opened Sequences

  /** The interpreter takes an action, or one is added to the queue. */
  datatype Op<C(!new)> = Take | Add(act: Action<C>)

  ghost function CommandsOf<C(!new)>(actions: seq<Action<C>>): seq<C> {
    Concat(Lists(actions))
  }

  lemma CommandsAppend<C(!new)>(actions: seq<Action<C>>, act: Action<C>)
    ensures CommandsOf(actions + [act]) == CommandsOf(actions) + act.commands
    ensures CommandsOf<C>([]) == []
  {
    assert Lists(actions + [act]) == Lists(actions) + [act.commands];
    assert Lists<C>([]) == [];
    ConcatAppend(Lists(actions), act.commands);
  }

  ghost function Front<C(!new)>(ops: seq<Op<C>>): seq<Op<C>>
    requires ops != []
  {
    ops[..|ops| - 1]
  }

  ghost function Last<C(!new)>(ops: seq<Op<C>>): Op<C>
    requires ops != []
  {
    ops[|ops| - 1]
  }

  /** The actions added, in order. */
  ghost function Added<C(!new)>(ops: seq<Op<C>>): seq<Action<C>> {
    if ops == [] then [] else Added(Front(ops)) + (match Last(ops) case Take => [] case Add(act) => [act])
  }

  lemma {:induction false} AddedAt<C(!new)>(ops: seq<Op<C>>, i: nat)
    requires i < |ops| && ops[i].Add?
    ensures ops[i].act in Added(ops)
  {
    if i < |ops| - 1 {
      AddedAt(Front(ops), i);
    }
  }

  lemma NextOp<C(!new)>(ops: seq<Op<C>>, i: nat)
    requires i < |ops|
    ensures Front(ops[..i + 1]) == ops[..i] && Last(ops[..i + 1]) == ops[i]
  {
  }

  // ----- the queue as a value

  /** The actions the head leads to, where the last may stick, leading to itself; or one that is taken
      for ever. */
  datatype Pending<C(!new)> = Pending(actions: seq<Action<C>>, sticks: bool) | Forever(act: Action<C>)

  ghost function IndexOf<C(!new)>(actions: seq<Action<C>>, act: Action<C>): (k: nat)
    requires act in actions
    ensures k < |actions| && actions[k] == act
  {
    if actions[0] == act then 0 else 1 + IndexOf(actions[1..], act)
  }

  /** A new action goes behind the others. One that waits cuts off those behind it; it is taken for
      ever if it was the first, and sticks if it was the last. */
  ghost function Next<C(!new)>(q: Pending<C>, op: Op<C>): Pending<C> {
    match q
    case Forever(_) => q
    case Pending(actions, sticks) =>
      match op
      case Take => if actions == [] || (sticks && |actions| == 1) then q else Pending(actions[1..], sticks)
      case Add(act) =>
        if act !in actions then Pending(actions + [act], false)
        else
          var k := IndexOf(actions, act);
          if k == 0 then Forever(act) else Pending(actions[..k + 1], k == |actions| - 1)
  }

  ghost function After<C(!new)>(q: Pending<C>, ops: seq<Op<C>>): Pending<C> {
    if ops == [] then q else Next(After(q, Front(ops)), Last(ops))
  }

  predicate Idle<C(!new)>(q: Pending<C>) {
    q.Pending? && q.actions == []
  }

  /** What an interpreter that takes an action gets. */
  ghost function First<C(!new)>(q: Pending<C>): Action<C>
    requires !Idle(q)
  {
    if q.Forever? then q.act else q.actions[0]
  }

  /** The actions taken, in order. */
  ghost function Taken<C(!new)>(q: Pending<C>, ops: seq<Op<C>>): seq<Action<C>> {
    if ops == [] then []
    else
      var before := After(q, Front(ops));
      Taken(q, Front(ops)) + if Last(ops).Take? && !Idle(before) then [First(before)] else []
  }

  ghost function Takes<C(!new)>(ops: seq<Op<C>>): nat {
    if ops == [] then 0 else Takes(Front(ops)) + if Last(ops).Take? then 1 else 0
  }

  // ----- the same on the links

  /** The links from the head forward, and those back to it. */
  ghost predicate Chain<C(!new)>(head: Action<C>, q: Pending<C>)
    requires q.Pending?
    reads [head] + q.actions
  {
    var all, n := [head] + q.actions, |q.actions|;
    && Distinct(all) && (q.sticks ==> n > 0)
    && (forall i {:trigger all[i].next} :: 0 <= i < n ==> all[i].next == all[i + 1])
    && all[n].next == all[if q.sticks then n else 0]
    && all[0].prev == all[n] && (n > 0 ==> all[1].prev == all[0])
  }

  /** The head leads to item, and neither item nor the head leads back to the head. */
  ghost predicate Stuck<C(!new)>(head: Action<C>, item: Action<C>, nodes: set<Action<C>>)
    reads head, item
  {
    && head in nodes && item in nodes && head.next == item != head
    && item.next in nodes && item.prev in nodes && head.prev in nodes
    && item.prev != head && head.prev != head
  }

  /** The links stand for q, and all of them are among nodes. */
  ghost predicate Queue<C(!new)>(head: Action<C>, q: Pending<C>, nodes: set<Action<C>>)
    reads nodes
  {
    && head in nodes
    && match q
       case Forever(act) => act in nodes && Stuck(head, act, nodes)
       case Pending(actions, _) => (forall a :: a in actions ==> a in nodes) && Chain(head, q)
  }

  /** action_remove_queue_head on such a queue. */
  method TakeFrom<C(!new)>(head: Action<C>, ghost q: Pending<C>, ghost nodes: set<Action<C>>) returns (act: Action<C>)
    requires Queue(head, q, nodes) && !Idle(q)
    modifies nodes
    ensures act == First(q) && Queue(head, Next(q, Take), nodes)
  {
    ghost var all := [head] + if q.Pending? then q.actions else [];
    assert all[0] == head && (q.Pending? ==> all[1] == q.actions[0]);
    act := head.next;
    SkipItem(act);
    ghost var q' := Next(q, Take);
    if q' != q {
      ghost var rest := [head] + q'.actions;
      assert forall i :: 0 < i < |rest| ==> rest[i] == all[i + 1];
    }
  }

  /** The links after act was added behind all: a new one, or all[j] once more. */
  ghost predicate LinkedNew<C(!new)>(all: seq<Action<C>>, act: Action<C>)
    requires |all| > 0
    reads all, act
  {
    var n := |all| - 1;
    && (forall i {:trigger all[i].next} :: 0 <= i < n ==> all[i].next == all[i + 1])
    && all[n].next == act && act.next == all[0] && all[0].prev == act && act.prev == all[n]
    && (n > 0 ==> all[1].prev == all[0])
  }

  ghost predicate LinkedAgain<C(!new)>(all: seq<Action<C>>, j: nat)
    requires 0 < j < |all|
    reads all
  {
    var n := |all| - 1;
    && (forall i {:trigger all[i].next} :: 0 <= i < n && i != j ==> all[i].next == all[i + 1])
    && all[j].next == (if j == n then all[j] else all[0]) && all[0].prev == all[j] && all[j].prev == all[n]
    && (j > 1 ==> all[1].prev == all[0])
  }

  lemma NewIsQueue<C(!new)>(head: Action<C>, q: Pending<C>, act: Action<C>, nodes: set<Action<C>>)
    requires q.Pending? && Distinct([head] + q.actions) && LinkedNew([head] + q.actions, act)
    requires act != head && act !in q.actions && head in nodes && act in nodes && forall a :: a in q.actions ==> a in nodes
    ensures Queue(head, Next(q, Add(act)), nodes)
  {
    var all, n := [head] + q.actions, |q.actions|;
    assert [head] + (q.actions + [act]) == all + [act];
    assert forall i :: 0 < i <= n ==> all[i] == q.actions[i - 1];
    assert forall i :: 0 <= i <= n ==> all[i] != act;
  }

  lemma AgainIsQueue<C(!new)>(head: Action<C>, q: Pending<C>, act: Action<C>, nodes: set<Action<C>>)
    requires q.Pending? && Distinct([head] + q.actions) && act in q.actions
    requires LinkedAgain([head] + q.actions, IndexOf(q.actions, act) + 1)
    requires head in nodes && forall a :: a in q.actions ==> a in nodes
    ensures Queue(head, Next(q, Add(act)), nodes)
  {
    var all, j := [head] + q.actions, IndexOf(q.actions, act) + 1;
    assert all[j] == act && all[0] == head && all[1] == q.actions[0] && all[|all| - 1] in q.actions;
    if j > 1 {
      var some := [head] + q.actions[..j];
      assert forall i :: 0 <= i <= j ==> some[i] == all[i];
    }
  }

  method Append<C(!new)>(head: Action<C>, act: Action<C>, ghost q: Pending<C>, ghost nodes: set<Action<C>>)
    requires Queue(head, q, nodes) && act in nodes && act != head
    modifies nodes
    ensures match q
            case Forever(item) => Queue(head, q, nodes)
            case Pending(actions, _) =>
              var all := [head] + actions;
              Distinct(all) && if act in actions then LinkedAgain(all, IndexOf(actions, act) + 1) else LinkedNew(all, act)
  {
    hide IndexOf;
    ghost var all := [head] + if q.Pending? then q.actions else [];
    ghost var n := |all| - 1;
    assert all[n] in all && all[0] == head;
    assert forall i :: 0 < i <= n ==> all[i] == q.actions[i - 1];
    SetTail(head, act);
    if q.Pending? && act in q.actions {
      assert all[IndexOf(q.actions, act) + 1] == act;
    }
  }

  /** list_add_tail on such a queue, whether act waits already or not. */
  method AddTo<C(!new)>(head: Action<C>, act: Action<C>, ghost q: Pending<C>, ghost nodes: set<Action<C>>)
    requires Queue(head, q, nodes) && act in nodes && act != head
    modifies nodes
    ensures Queue(head, Next(q, Add(act)), nodes)
  {
    hide LinkedNew, LinkedAgain, Chain, Distinct, Stuck;
    Append(head, act, q, nodes);
    if q.Pending? {
      if act in q.actions { AgainIsQueue(head, q, act, nodes); } else { NewIsQueue(head, q, act, nodes); }
    }
  }

  lemma QueueIdle<C(!new)>(head: Action<C>, q: Pending<C>, nodes: set<Action<C>>)
    requires Queue(head, q, nodes)
    ensures head.next == head <==> Idle(q)
  {
    if q.Pending? {
      var all := [head] + q.actions;
      assert all[0] == head && (q.actions != [] ==> all[0] != all[1]);
    }
  }

  /** The interpreter takes actions and runs their commands while others, or the same ones, are added
      to the queue: the pointers do what the value does, whatever is added. */
  method RunQueue<C(!new)>(head: Action<C>, ghost elements: seq<Action<C>>, ops: seq<Op<C>>) returns (ran: seq<C>, idle: bool)
    requires Ring(head, elements) && head !in Added(ops)
    modifies head, elements, Added(ops)
    ensures ran == CommandsOf(Taken(Pending(elements, false), ops))
    ensures idle <==> Idle(After(Pending(elements, false), ops))
  {
    hide Queue, CommandsOf, Ring, Chain;
    ghost var start := Pending(elements, false);
    ghost var nodes := set a | a == head || a in elements || a in Added(ops);
    ghost var q := start;
    RingIsQueue(head, elements, nodes);
    ran := [];
    assert ops[..0] == [];
    CommandsAppend([], head);
    for i := 0 to |ops|
      invariant q == After(start, ops[..i]) && Queue(head, q, nodes) && ran == CommandsOf(Taken(start, ops[..i]))
      modifies nodes
    {
      NextOp(ops, i);
      QueueIdle(head, q, nodes);
      assert Taken(start, ops[..i]) + [] == Taken(start, ops[..i]);
      match ops[i] {
        case Take =>
          if head.next != head {
            var act := TakeFrom(head, q, nodes);
            CommandsAppend(Taken(start, ops[..i]), act);
            ran := ran + act.commands;
          }
        case Add(act) =>
          AddedAt(ops, i);
          AddTo(head, act, q, nodes);
      }
      q := Next(q, ops[i]);
    }
    assert ops[..|ops|] == ops;
    QueueIdle(head, q, nodes);
    idle := head.next == head;
  }

  lemma RingIsQueue<C(!new)>(head: Action<C>, elements: seq<Action<C>>, nodes: set<Action<C>>)
    requires Ring(head, elements) && head in nodes && forall a :: a in elements ==> a in nodes
    ensures Queue(head, Pending(elements, false), nodes)
  {
    var all := [head] + elements;
    assert all[0] == head && all[|elements|].next == all[0];
  }

  // ----- how often an action is run

  /** No action is added while it waits. */
  ghost predicate AddsNew<C(!new)>(q: Pending<C>, ops: seq<Op<C>>) {
    forall i :: 0 <= i < |ops| && ops[i].Add? ==>
      var before := After(q, ops[..i]); before.Pending? && ops[i].act !in before.actions
  }

  lemma AddsNewFront<C(!new)>(q: Pending<C>, ops: seq<Op<C>>)
    requires ops != [] && AddsNew(q, ops)
    ensures AddsNew(q, Front(ops))
    ensures Last(ops).Add? ==> var before := After(q, Front(ops)); before.Pending? && Last(ops).act !in before.actions
  {
    assert forall i :: 0 <= i < |ops| - 1 ==> Front(ops)[..i] == ops[..i];
  }

  /** Without that, every action that waits or is added is taken once, in order, or still waits. */
  lemma {:induction false} TakenOnce<C(!new)>(q: Pending<C>, ops: seq<Op<C>>)
    requires q.Pending? && !q.sticks && AddsNew(q, ops)
    ensures var after := After(q, ops);
            after.Pending? && !after.sticks && Taken(q, ops) + after.actions == q.actions + Added(ops)
  {
    if ops == [] {
      assert [] + q.actions == q.actions + [];
    } else {
      AddsNewFront(q, ops);
      TakenOnce(q, Front(ops));
      var taken, before := Taken(q, Front(ops)), After(q, Front(ops)).actions;
      assert taken + [] == taken;
      match Last(ops)
      case Add(act) =>
        Associate(taken, before, [act]);
        Associate(q.actions, Added(Front(ops)), [act]);
      case Take =>
        assert Added(Front(ops)) + [] == Added(Front(ops));
        if before != [] {
          assert before == [before[0]] + before[1..];
          Associate(taken, [before[0]], before[1..]);
        }
    }
  }

  /** Adding an action that waits: the first is taken for ever, another cuts off those behind it. */
  lemma Requeued<C(!new)>(elements: seq<Action<C>>, k: nat)
    requires k < |elements| && Distinct(elements)
    ensures Next(Pending(elements, false), Add(elements[k])) ==
      if k == 0 then Forever(elements[0]) else Pending(elements[..k + 1], k == |elements| - 1)
  {
  }

  /** From then on, whatever is added and however often, every action taken is that one. */
  lemma {:induction false} TakenForever<C(!new)>(act: Action<C>, ops: seq<Op<C>>)
    ensures After(Forever(act), ops) == Forever(act) && Taken(Forever(act), ops) == seq(Takes(ops), _ => act)
  {
    if ops != [] {
      TakenForever(act, Front(ops));
    }
  }

  /** One that sticks, if only takes follow: those before it, and then it again and again. */
  lemma {:induction false} TakenAlone<C(!new)>(q: Pending<C>, n: nat)
    requires q.Pending? && q.sticks && q.actions != []
    ensures var m, takes := |q.actions| - 1, seq(n, _ => Op<C>.Take);
            && Taken(q, takes) == seq(n, i requires 0 <= i => q.actions[if i < m then i else m])
            && After(q, takes) == Pending(q.actions[if n < m then n else m..], true)
  {
    var m, takes := |q.actions| - 1, seq(n, _ => Op<C>.Take);
    if n > 0 {
      TakenAlone(q, n - 1);
      assert Front(takes) == seq(n - 1, _ => Op<C>.Take);
    } else {
      assert q.actions[0..] == q.actions;
    }
  }

  /** A new action ends that: the one that stuck is taken once more, and what is added then once. */
  lemma Released<C(!new)>(q: Pending<C>, n: nat, act: Action<C>, ops: seq<Op<C>>)
    requires q.Pending? && q.sticks && q.actions != [] && act !in q.actions
    requires AddsNew(Next(After(q, seq(n, _ => Take)), Add(act)), ops)
    ensures var m, takes := |q.actions| - 1, seq(n, _ => Op<C>.Take);
            var all := takes + [Add(act)] + ops;
            var after := After(q, all);
            after.Pending? && !after.sticks && Taken(q, all) + after.actions ==
              Taken(q, takes) + (q.actions[if n < m then n else m..] + [act] + Added(ops))
  {
    var takes := seq(n, _ => Op<C>.Take);
    var first := takes + [Add(act)];
    TakenAlone(q, n);
    assert Front(first) == takes && Last(first) == Add(act);
    assert Taken(q, takes) + [] == Taken(q, takes);
    TakenOn(q, first, ops);
    TakenOnce(After(q, first), ops);
    Associate(Taken(q, first), Taken(After(q, first), ops), After(After(q, first), ops).actions);
  }

  lemma {:induction false} TakenOn<C(!new)>(q: Pending<C>, first: seq<Op<C>>, ops: seq<Op<C>>)
    ensures Taken(q, first + ops) == Taken(q, first) + Taken(After(q, first), ops)
    ensures After(q, first + ops) == After(After(q, first), ops)
  {
    if ops == [] {
      assert first + [] == first && Taken(q, first) + [] == Taken(q, first);
    } else {
      assert Front(first + ops) == first + Front(ops) && Last(first + ops) == Last(ops);
      TakenOn(q, first, Front(ops));
      var before := After(After(q, first), Front(ops));
      Associate(Taken(q, first), Taken(After(q, first), Front(ops)),
                if Last(ops).Take? && !Idle(before) then [First(before)] else []);
    }
  }

  lemma AfterAdd<C(!new)>(q: Pending<C>, act: Action<C>, ops: seq<Op<C>>)
    ensures var r := Next(q, Add(act));
            Taken(q, [Add(act)] + ops) == Taken(r, ops) && After(q, [Add(act)] + ops) == After(r, ops)
  {
    TakenOn(q, [Add(act)], ops);
    assert Front([Op.Add(act)]) == [] && Taken(q, [Add(act)]) == [];
    assert [] + Taken(Next(q, Add(act)), ops) == Taken(Next(q, Add(act)), ops);
  }

  /** An action that waits is queued again. The first: every action taken from then on is that one,
      whatever is added. Another one but the last: those behind it are never taken, all others and
      what is added then once. The last: if nothing is added, it is taken again and again. */
  lemma QueuedAgain<C(!new)>(elements: seq<Action<C>>, k: nat, ops: seq<Op<C>>)
    requires k < |elements| && Distinct(elements)
    ensures var q, n, all := Pending(elements, false), |elements|, [Add(elements[k])] + ops;
            && (k == 0 ==> Taken(q, all) == seq(Takes(ops), _ => elements[0]))
            && (0 < k < n - 1 && AddsNew(Pending(elements[..k + 1], false), ops) ==>
                  After(q, all).Pending? && Taken(q, all) + After(q, all).actions == elements[..k + 1] + Added(ops))
            && (0 < k == n - 1 && ops == seq(|ops|, _ => Take) ==>
                  Taken(q, all) == seq(|ops|, i requires 0 <= i => elements[if i < k then i else k]))
  {
    hide Taken, After;
    var q := Pending(elements, false);
    Requeued(elements, k);
    AfterAdd(q, elements[k], ops);
    if k == 0 {
      TakenForever(elements[0], ops);
    } else if k < |elements| - 1 {
      if AddsNew(Pending(elements[..k + 1], false), ops) {
        TakenOnce(Pending(elements[..k + 1], false), ops);
      }
    } else if ops == seq(|ops|, _ => Take) {
      assert elements[..k + 1] == elements;
      TakenAlone(Pending(elements, true), |ops|);
    }
  }

  // ----- three runs

  lemma Apart<C(!new)>(head: Action<C>, elements: seq<Action<C>>)
    requires Ring(head, elements)
    ensures Distinct(elements) && head !in elements
  {
    var all := [head] + elements;
    assert all[0] == head && forall i :: 0 <= i < |elements| ==> all[i + 1] == elements[i];
  }

  method ThreeActions() returns (head: Action<int>, actions: seq<Action<int>>)
    ensures fresh(head) && |actions| == 3 && (forall i :: 0 <= i < 3 ==> fresh(actions[i])) && Ring(head, actions)
    ensures Distinct(actions) && head !in actions
    ensures actions[0].commands == [1] && actions[1].commands == [2] && actions[2].commands == [3]
  {
    hide Ring, Distinct, Tangled;
    head := new Action("", []);
    var a := new Action("a", [1]);
    var b := new Action("b", [2]);
    var c := new Action("c", [3]);
    InitList(head);
    AddTail(head, a, []);
    assert [] + [a] == [a];
    AddTail(head, b, [a]);
    assert [a] + [b] == [a, b];
    AddTail(head, c, [a, b]);
    assert [a, b] + [c] == [a, b, c];
    actions := [a, b, c];
    Apart(head, actions);
  }

  /** The commands of one action after another, for runs of a few steps. */
  lemma Commands<C(!new)>(actions: seq<Action<C>>)
    ensures CommandsOf(actions) ==
      if actions == [] then [] else CommandsOf(actions[..|actions| - 1]) + actions[|actions| - 1].commands
  {
    if actions == [] {
      assert Lists(actions) == [];
    } else {
      CommandsAppend(actions[..|actions| - 1], actions[|actions| - 1]);
      assert actions == actions[..|actions| - 1] + [actions[|actions| - 1]];
    }
  }

  lemma ThreeCommands(a: Action<int>, b: Action<int>, c: Action<int>)
    requires |a.commands| == |b.commands| == |c.commands| == 1
    ensures CommandsOf([a, b]) == a.commands + b.commands
    ensures CommandsOf([a, b, c]) == a.commands + b.commands + c.commands
  {
    hide CommandsOf;
    CommandsAppend([], a);
    CommandsAppend([] + [a], b);
    CommandsAppend([a, b], c);
    assert [] + [a] + [b] == [a, b] && [a, b] + [c] == [a, b, c];
  }

  lemma {:induction false} AddedOn<C(!new)>(first: seq<Op<C>>, ops: seq<Op<C>>)
    ensures Added(first + ops) == Added(first) + Added(ops)
  {
    if ops == [] {
      assert first + [] == first && Added(first) + [] == Added(first);
    } else {
      assert Front(first + ops) == first + Front(ops) && Last(first + ops) == Last(ops);
      AddedOn(first, Front(ops));
      Associate(Added(first), Added(Front(ops)), match Last(ops) case Take => [] case Add(act) => [act]);
    }
  }

  lemma {:induction false} OnlyTakes<C(!new)>(n: nat)
    ensures var takes := seq(n, _ => Op<C>.Take); Added(takes) == [] && Takes(takes) == n
  {
    var takes := seq(n, _ => Op<C>.Take);
    if n > 0 {
      OnlyTakes<C>(n - 1);
      assert Front(takes) == seq(n - 1, _ => Op<C>.Take);
      assert Added(Front(takes)) + [] == Added(Front(takes));
    }
  }

  lemma AddedFirst<C(!new)>(acts: seq<Action<C>>, n: nat)
    requires |acts| == 1 || |acts| == 2
    ensures var adds := if |acts| == 1 then [Op.Add(acts[0])] else [Add(acts[0]), Add(acts[1])];
            Added(adds + seq(n, _ => Take)) == acts
  {
    OnlyTakes<C>(n);
    var one := [Op.Add(acts[0])];
    assert Front(one) == [] && Added(one) == [] + [acts[0]];
    if |acts| == 1 {
      AddedOn(one, seq(n, _ => Take));
    } else {
      var two := [Op.Add(acts[0]), Add(acts[1])];
      assert Front(two) == one && Added(two) == [acts[0]] + [acts[1]];
      AddedOn(two, seq(n, _ => Take));
    }
  }

  lemma TwoTakes<C(!new)>(a: Action<C>, b: Action<C>)
    ensures var q := Pending([a, b], false);
            Taken(q, [Take, Take]) == [a, b] && After(q, [Take, Take]) == Pending([], false)
  {
    var q := Pending([a, b], false);
    assert Front([Op<C>.Take, Take]) == [Take] && Front([Op<C>.Take]) == [];
    assert [a, b][1..] == [b] && After(q, [Take]) == Pending([b], false) && Taken(q, [Take]) == [a];
  }

  /** Three actions wait and the second is queued again: the third one is lost. */
  method LostAction() returns (ran: seq<int>, idle: bool)
    ensures ran == [1, 2] && idle
  {
    hide Ring, CommandsOf, Added, Taken, After;
    var head, abc := ThreeActions();
    var takes: seq<Op<int>> := seq(2, _ => Take);
    var ops := [Add(abc[1])] + takes;
    AddedFirst([abc[1]], 2);
    Requeued(abc, 1);
    AfterAdd(Pending(abc, false), abc[1], takes);
    assert abc[..2] == [abc[0], abc[1]] && takes == [Take, Take];
    TwoTakes(abc[0], abc[1]);
    ran, idle := RunQueue(head, abc, ops);
    ThreeCommands(abc[0], abc[1], abc[1]);
  }

  /** Three actions wait and the first is queued again: it is all that ever runs, even if another one
      is added. */
  method EndlessAction(times: nat) returns (ran: seq<int>, idle: bool)
    ensures ran == seq(times, _ => 1) && !idle
  {
    hide Ring, CommandsOf, Added, Taken, After, Takes;
    var head, abc := ThreeActions();
    var d := new Action("d", [4]);
    var takes: seq<Op<int>> := seq(times, _ => Take);
    var ops := [Add(abc[0]), Add(d)] + takes;
    AddedFirst([abc[0], d], times);
    Requeued(abc, 0);
    assert ops == [Add(abc[0])] + ([Add(d)] + takes);
    AfterAdd(Pending(abc, false), abc[0], [Add(d)] + takes);
    AfterAdd(Forever(abc[0]), d, takes);
    TakenForever(abc[0], takes);
    OnlyTakes<int>(times);
    ran, idle := RunQueue(head, abc, ops);
    SameCommand(abc[0], times);
  }

  lemma {:induction false} SameCommand(item: Action<int>, times: nat)
    requires item.commands == [1]
    ensures CommandsOf(seq(times, _ => item)) == seq(times, _ => 1)
  {
    var actions := seq(times, _ => item);
    Commands(actions);
    if times > 0 {
      SameCommand(item, times - 1);
      assert actions[..times - 1] == seq(times - 1, _ => item);
      assert seq(times - 1, _ => 1) + [1] == seq(times, _ => 1);
    }
  }

  /** Three actions wait and the last is queued again: it runs again and again until another one is
      added, then once more, and the queue becomes empty. */
  method ReleasedAction(times: nat) returns (ran: seq<int>, idle: bool)
    ensures ran == [1, 2] + seq(times, _ => 3) + [3, 4] && idle
  {
    hide Ring, CommandsOf, Added, Taken, After;
    var head, abc := ThreeActions();
    var d := new Action("d", [4]);
    var takes: seq<Op<int>> := seq(times + 2, _ => Take);
    var ops := [Add(abc[2])] + (takes + [Add(d)] + [Take, Take]);
    ReleasedRun(abc, d, times);
    ReleasedAdds(abc[2], d, times);
    ran, idle := RunQueue(head, abc, ops);
  }

  lemma ReleasedRun(abc: seq<Action<int>>, d: Action<int>, times: nat)
    requires |abc| == 3 && Distinct(abc) && d !in abc
    requires abc[0].commands == [1] && abc[1].commands == [2] && abc[2].commands == [3] && d.commands == [4]
    ensures var q := Pending(abc, false);
            var ops := [Add(abc[2])] + (seq(times + 2, _ => Op<int>.Take) + [Add(d)] + [Take, Take]);
            && CommandsOf(Taken(q, ops)) == [1, 2] + seq(times, _ => 3) + [3, 4] && Idle(After(q, ops))
  {
    hide CommandsOf, Taken, After;
    var takes := seq(times + 2, _ => Op<int>.Take);
    var first, last := takes + [Add(d)], [Op<int>.Take, Take];
    var q := Pending(abc, true);
    Requeued(abc, 2);
    assert abc[..3] == abc;
    AfterAdd(Pending(abc, false), abc[2], first + last);
    TakenAlone(q, times + 2);
    TakenOn(q, first, last);
    TakenOn(q, takes, [Add(d)]);
    assert abc[2..] == [abc[2]] && [abc[2]] + [d] == [abc[2], d];
    AfterAdd(Pending([abc[2]], true), d, []);
    assert [Op.Add(d)] + [] == [Op.Add(d)];
    Nothing(Pending([abc[2], d], false));
    TwoTakes(abc[2], d);
    var some := Taken(q, takes);
    assert Taken(q, first + last) == some + [] + [abc[2], d] == some + [abc[2]] + [d];
    Repeated(abc, times);
    CommandsAppend(some, abc[2]);
    CommandsAppend(some + [abc[2]], d);
    Associate([1, 2] + seq(times, _ => 3), [3], [4]);
  }

  lemma Nothing<C(!new)>(q: Pending<C>)
    ensures Taken(q, []) == [] && After(q, []) == q
  {
  }

  lemma ReleasedAdds(c: Action<int>, d: Action<int>, times: nat)
    ensures Added([Add(c)] + (seq(times + 2, _ => Op<int>.Take) + [Add(d)] + [Take, Take])) == [c, d]
  {
    hide Added;
    var takes, last := seq(times + 2, _ => Op<int>.Take), [Op<int>.Take, Take];
    AddedFirst([c], 0);
    AddedFirst([d], 0);
    OnlyTakes<int>(times + 2);
    OnlyTakes<int>(2);
    assert seq(2, _ => Op<int>.Take) == last && seq(0, _ => Op<int>.Take) == [];
    assert [Op.Add(c)] + [] == [Op.Add(c)] && [Op.Add(d)] + [] == [Op.Add(d)];
    AddedOn([Add(c)], takes + [Add(d)] + last);
    AddedOn(takes + [Add(d)], last);
    AddedOn(takes, [Add(d)]);
  }

  lemma {:induction false} Repeated(abc: seq<Action<int>>, times: nat)
    requires |abc| == 3 && abc[0].commands == [1] && abc[1].commands == [2] && abc[2].commands == [3]
    ensures CommandsOf(seq(times + 2, i requires 0 <= i => abc[if i < 2 then i else 2])) == [1, 2] + seq(times, _ => 3)
  {
    var actions := seq(times + 2, i requires 0 <= i => abc[if i < 2 then i else 2]);
    if times == 0 {
      assert actions == [abc[0], abc[1]];
      ThreeCommands(abc[0], abc[1], abc[2]);
    } else {
      Repeated(abc, times - 1);
      Commands(actions);
      assert actions[..times + 1] == seq(times + 1, i requires 0 <= i => abc[if i < 2 then i else 2]);
      assert [1, 2] + seq(times - 1, _ => 3) + [3] == [1, 2] + seq(times, _ => 3);
    }
  }
}
