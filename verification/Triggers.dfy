/** Which actions a property change, or all properties at once, put on the queue. */
module Triggers {
  import opened ActionQueue
  import opened Text
  import P = Properties

  const PROPERTY: string := "property:"

  /** What follows "property:" in the name of an action. */
  predicate IsProperty(action: string) {
    PROPERTY <= action
  }

  predicate Matches(pattern: string, value: string) {
    pattern == value || pattern == "*"
  }

  /** queue_property_triggers: the name as a prefix, then '=', then the value or a star. */
  predicate PairFires(test: string, name: string, value: string) {
    name <= test && |name| < |test| && test[|name|] == '=' && Matches(test[|name| + 1..], value)
  }

  predicate SelectedBy(action: string, name: string, value: string) {
    IsProperty(action) && PairFires(action[|PROPERTY|..], name, value)
  }

  /** queue_all_property_triggers: the name up to the first '=', looked up in the store. */
  predicate StoreFires(test: string, store: map<string, string>) {
    var k := IndexOf(test, '=');
    k < |test| && k <= P.PROP_NAME_MAX &&
    var found := P.Lookup(store, test[..k]);
    found.Some? && Matches(test[k + 1..], found.value)
  }

  predicate SelectedByStore(action: string, store: map<string, string>) {
    IsProperty(action) && StoreFires(action[|PROPERTY|..], store)
  }

  predicate ValidNames(store: map<string, string>) {
    forall n :: n in store ==> |n| < P.PROP_NAME_MAX
  }

  lemma FirstEquals(test: string, name: string)
    requires name <= test && |name| < |test| && test[|name|] == '=' && '=' !in name
    ensures IndexOf(test, '=') == |name| && test[..|name|] == name
  {
    var k := IndexOf(test, '=');
    assert forall i :: 0 <= i < |name| ==> test[i] == name[i] && name[i] in name;
    assert forall i :: 0 <= i < k ==> test[i] == test[..k][i] && test[..k][i] in test[..k];
  }

  /** An action is selected by the whole store exactly when one stored pair whose name has no '='
      selects it. */
  lemma StoreSelects(action: string, store: map<string, string>)
    requires ValidNames(store)
    ensures SelectedByStore(action, store) <==>
            exists n :: n in store && '=' !in n && SelectedBy(action, n, store[n])
  {
    if SelectedByStore(action, store) {
      var test := action[|PROPERTY|..];
      var n := test[..IndexOf(test, '=')];
      assert n in store && '=' !in n && SelectedBy(action, n, store[n]);
    }
    if n :| n in store && '=' !in n && SelectedBy(action, n, store[n]) {
      FirstEquals(action[|PROPERTY|..], n);
    }
  }

  /** The action "property:name=value" fires on a change of that property to that value, the action
      "property:name=*" on every change of it, and neither on a change of another. */
  lemma TriggerForm(n: string, v: string, name: string, value: string)
    requires '=' !in n && '=' !in name
    ensures SelectedBy("property:" + (n + ("=" + v)), name, value) <==> name == n && (v == value || v == "*")
  {
    var test := n + ("=" + v);
    var action := "property:" + test;
    assert action[|PROPERTY|..] == test && PROPERTY <= action;
    assert test[|n|] == '=' && test[|n| + 1..] == v;
    if PairFires(test, name, value) {
      FirstEquals(test, name);
      FirstEquals(test, n);
    }
  }

  /** Actions of other names fire on no change. */
  lemma OtherActions(action: string, name: string, value: string)
    requires !("property:" <= action)
    ensures !SelectedBy(action, name, value)
  {
  }

  /** The two ways of firing property triggers agree on every action as soon as no stored name
      contains '='. */
  lemma TriggersAgree(action: string, store: map<string, string>)
    requires ValidNames(store) && forall n :: n in store ==> '=' !in n
    ensures SelectedByStore(action, store) <==> exists n :: n in store && SelectedBy(action, n, store[n])
  {
    StoreSelects(action, store);
    if n :| n in store && SelectedBy(action, n, store[n]) {
      assert n in store && '=' !in n && SelectedBy(action, n, store[n]);
    }
  }

  /** The stores that sets lead to look their names up as stored. */
  lemma StoreNames(a: P.Area)
    requires P.Sound(a)
    ensures ValidNames(P.MapOf(a.props))
  {
    hide P.MapOf;
    forall n | n in P.MapOf(a.props) ensures |n| < P.PROP_NAME_MAX {
      P.StoredNames(a, n);
    }
  }

  /** After any sequence of sets, starting the triggers fires an action exactly if a change of one of
      the properties to its present value would, as long as no name has an '='. */
  lemma StartupAgrees(a: P.Area, sets: seq<(string, string)>, action: string)
    requires P.Sound(a) && forall n :: n in P.MapOf(P.Run(a, sets).props) ==> '=' !in n
    ensures var store := P.MapOf(P.Run(a, sets).props);
            SelectedByStore(action, store) <==> exists n :: n in store && SelectedBy(action, n, store[n])
  {
    hide P.MapOf, P.Run;
    P.RunRefines(a, sets);
    StoreNames(P.Run(a, sets));
    TriggersAgree(action, P.MapOf(P.Run(a, sets).props));
  }

  /** A stored name with '=' does no harm if it fires on nothing that its part before the '='
      does not fire on too. */
  predicate Shadowed(n: string, store: map<string, string>)
    requires n in store && '=' in n
  {
    var k := IndexOf(n, '=');
    k < |n| && store[n] == "*" && n[..k] in store && store[n[..k]] == n[k + 1..] + "=*"
  }

  lemma SumSlices(n: string, t: string, k: nat)
    requires k < |n|
    ensures (n + t)[..k] == n[..k] && (n + t)[k + 1..] == n[k + 1..] + t && (n + t)[k] == n[k]
    ensures n <= n + t && (n + t)[|n|..] == t
  {
  }

  /** Where a name with '=' is cut when it is read from a trigger. */
  lemma CutName(n: string, x: string)
    requires '=' in n
    ensures var k, test := IndexOf(n, '='), n + ("=" + x);
            && k < |n| && IndexOf(test, '=') == k && test[..k] == n[..k]
            && test[k + 1..] == n[k + 1..] + ("=" + x) && '=' in test[k + 1..]
            && n <= test && test[|n|] == '=' && test[|n| + 1..] == x
  {
    hide IndexOf;
    var k, t := IndexOf(n, '='), "=" + x;
    assert n[..|n|] == n;
    SumSlices(n, t, k);
    FirstEquals(n + t, n[..k]);
    LaterEquals(n[k + 1..], x);
    assert t[1..] == x;
    SliceOfTail(n, t);
  }

  lemma LaterEquals(b: string, x: string)
    ensures '=' in b + ("=" + x)
  {
    assert (b + ("=" + x))[|b|] == '=';
  }

  lemma SliceOfTail(n: string, t: string)
    requires t != []
    ensures (n + t)[|n| + 1..] == t[1..] && (n + t)[|n|] == t[0]
  {
  }

  lemma ShadowedName(n: string, store: map<string, string>, x: string)
    requires ValidNames(store) && n in store && '=' in n
    ensures var k := IndexOf(n, '=');
            k < |n| && (StoreFires(n + ("=" + x), store) <==> n[..k] in store && store[n[..k]] == n[k + 1..] + ("=" + x))
  {
    hide IndexOf;
    CutName(n, x);
  }

  /** The two ways agree on every action exactly when each stored name with '=' is shadowed. */
  lemma AgreeOnAll(store: map<string, string>)
    requires ValidNames(store)
    ensures (forall action :: SelectedByStore(action, store) <==> exists n :: n in store && SelectedBy(action, n, store[n]))
            <==> forall n :: n in store && '=' in n ==> Shadowed(n, store)
  {
    hide SelectedBy, SelectedByStore, Shadowed;
    if forall n :: n in store && '=' in n ==> Shadowed(n, store) {
      forall action: string
        ensures SelectedByStore(action, store) <==> exists n :: n in store && SelectedBy(action, n, store[n])
      {
        StoreSelects(action, store);
        if n :| n in store && SelectedBy(action, n, store[n]) {
          if '=' in n {
            ShadowSelects(action, n, store);
          }
        }
      }
    } else {
      var n :| n in store && '=' in n && !Shadowed(n, store);
      BothPatterns(n, store);
    }
  }

  lemma ShadowSelects(action: string, n: string, store: map<string, string>)
    requires ValidNames(store) && n in store && '=' in n && Shadowed(n, store) && SelectedBy(action, n, store[n])
    ensures SelectedByStore(action, store)
  {
    hide StoreFires, IndexOf;
    var test := action[|PROPERTY|..];
    assert test[|n| + 1..] == "*";
    assert "=" + "*" == "=*" && test == n + "=*";
    ShadowedName(n, store, "*");
  }

  lemma ActionOf(test: string, n: string, store: map<string, string>)
    requires n in store
    ensures var action := PROPERTY + test;
            && (SelectedBy(action, n, store[n]) <==> PairFires(test, n, store[n]))
            && (SelectedByStore(action, store) <==> StoreFires(test, store))
  {
    assert (PROPERTY + test)[|PROPERTY|..] == test;
  }

  /** A name with '=' that is not shadowed fires on an action the whole store does not select. */
  lemma BothPatterns(n: string, store: map<string, string>)
    requires ValidNames(store) && n in store && '=' in n && !Shadowed(n, store)
    ensures exists action :: SelectedBy(action, n, store[n]) && !SelectedByStore(action, store)
  {
    hide SelectedByStore, SelectedBy, StoreFires, IndexOf;
    var star, exact := n + ("=" + "*"), n + ("=" + store[n]);
    ActionOf(star, n, store);
    ActionOf(exact, n, store);
    CutName(n, "*");
    CutName(n, store[n]);
    ShadowedName(n, store, "*");
    ShadowedName(n, store, store[n]);
    var b := n[IndexOf(n, '=') + 1..];
    assert "=" + "*" == "=*";
    assert (b + "=*")[|b| + 1..] == "*" && (b + ("=" + store[n]))[|b| + 1..] == store[n];
    assert SelectedBy(PROPERTY + star, n, store[n]) && SelectedBy(PROPERTY + exact, n, store[n]);
  }

  // ----- queueing

  /** Why property triggers are looked at: one property changed, or all of them at start-up. */
  datatype Cause = Changed(name: string, value: string) | Startup(store: map<string, string>)

  predicate Fires(cause: Cause, action: string) {
    match cause
    case Changed(name, value) => SelectedBy(action, name, value)
    case Startup(store) => SelectedByStore(action, store)
  }

  /** The actions that fire, in list order. */
  ghost function Selected<C(!new)>(actions: seq<Action<C>>, cause: Cause): (r: seq<Action<C>>)
    ensures forall a :: a in r ==> a in actions && Fires(cause, a.name)
    ensures forall a :: a in actions && Fires(cause, a.name) ==> a in r
  {
    if actions == [] then []
    else
      var n := |actions| - 1;
      Selected(actions[..n], cause) + if Fires(cause, actions[n].name) then [actions[n]] else []
  }

  /** None of the actions that fire is waiting already. */
  ghost predicate Ready<C(!new)>(interpreter: Interpreter<C>, actions: seq<Action<C>>, cause: Cause)
    reads interpreter`waiting
  {
    && Distinct(actions) && interpreter.queue !in actions
    && forall a :: a in actions && Fires(cause, a.name) ==> a !in interpreter.waiting
  }

  lemma SelectedStep<C(!new)>(actions: seq<Action<C>>, cause: Cause, i: nat)
    requires i < |actions|
    ensures Selected(actions[..i + 1], cause) ==
      Selected(actions[..i], cause) + if Fires(cause, actions[i].name) then [actions[i]] else []
  {
    assert actions[..i + 1][..i] == actions[..i];
  }

  /** Queues an action of the list while only actions of the list were queued. */
  method QueueListed<C(!new)>(
      interpreter: Interpreter<C>, act: Action<C>, ghost was: seq<Action<C>>, ghost actions: seq<Action<C>>)
    requires interpreter.Valid() && act != interpreter.queue && act !in interpreter.waiting && act in actions
    requires forall k :: 0 <= k < |interpreter.waiting| ==> interpreter.waiting[k] in was || interpreter.waiting[k] in actions
    modifies interpreter`waiting, interpreter.queue, was, actions
    ensures interpreter.Valid() && interpreter.waiting == old(interpreter.waiting) + [act]
  {
    interpreter.QueueAction(act);
  }

  /** queue_property_triggers */
  method QueuePropertyTriggers<C(!new)>(
      interpreter: Interpreter<C>, actions: seq<Action<C>>, name: string, value: string)
    requires interpreter.Valid() && Ready(interpreter, actions, Changed(name, value))
    modifies interpreter`waiting, interpreter.queue, interpreter.waiting, actions
    ensures interpreter.Valid()
    ensures interpreter.waiting == old(interpreter.waiting) + Selected(actions, Changed(name, value))
  {
    hide Selected, Ring, Sound;
    ghost var cause, was := Changed(name, value), interpreter.waiting;
    var i := 0;
    NoneSelected(interpreter.waiting, cause);
    while i < |actions|
      invariant i <= |actions| && interpreter.Valid()
      invariant interpreter.waiting == was + Selected(actions[..i], cause)
    {
      assert actions[i] in actions;
      var act := actions[i];
      SelectedStep(actions, cause, i);
      if PROPERTY <= act.name {
        var test := act.name[|PROPERTY|..];
        if name <= test && |name| < |test| && test[|name|] == '='
           && (test[|name| + 1..] == value || test[|name| + 1..] == "*") {
          NotWaiting(was, actions, cause, i);
          QueueListed(interpreter, act, was, actions);
        }
      }
      i := i + 1;
    }
    assert actions[..i] == actions;
  }

  /** An action later in the list is not among those queued so far. */
  lemma NotWaiting<C(!new)>(was: seq<Action<C>>, actions: seq<Action<C>>, cause: Cause, i: nat)
    requires i < |actions| && Distinct(actions) && actions[i] !in was
    ensures actions[i] !in was + Selected(actions[..i], cause)
    ensures var queued := was + Selected(actions[..i], cause);
            forall k :: 0 <= k < |queued| ==> queued[k] in was || queued[k] in actions
  {
    hide Selected;
    var found := Selected(actions[..i], cause);
    forall k | 0 <= k < |found| ensures found[k] in actions {
      assert found[k] in found;
    }
  }

  lemma NoneSelected<C(!new)>(waiting: seq<Action<C>>, cause: Cause)
    ensures waiting + Selected([], cause) == waiting
  {
  }

  /** queue_all_property_triggers */
  method QueueAllPropertyTriggers<C(!new)>(
      interpreter: Interpreter<C>, actions: seq<Action<C>>, store: map<string, string>)
    requires interpreter.Valid() && Ready(interpreter, actions, Startup(store))
    modifies interpreter`waiting, interpreter.queue, interpreter.waiting, actions
    ensures interpreter.Valid()
    ensures interpreter.waiting == old(interpreter.waiting) + Selected(actions, Startup(store))
  {
    hide Selected, Ring, Sound;
    ghost var cause, was := Startup(store), interpreter.waiting;
    var i := 0;
    NoneSelected(interpreter.waiting, cause);
    while i < |actions|
      invariant i <= |actions| && interpreter.Valid()
      invariant interpreter.waiting == was + Selected(actions[..i], cause)
    {
      assert actions[i] in actions;
      var act := actions[i];
      SelectedStep(actions, cause, i);
      if PROPERTY <= act.name {
        var test := act.name[|PROPERTY|..];
        var length := IndexOf(test, '=');
        if length < |test| && length <= P.PROP_NAME_MAX {
          var value := P.Lookup(store, test[..length]);
          if value.Some? && (test[length + 1..] == value.value || test[length + 1..] == "*") {
            NotWaiting(was, actions, cause, i);
            QueueListed(interpreter, act, was, actions);
          }
        }
      }
      i := i + 1;
    }
    assert actions[..i] == actions;
  }
}
