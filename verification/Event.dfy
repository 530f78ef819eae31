/** `Event` of event.h over the reference-counted list nodes of list_safe_node.h. Listeners are client code
    that may add and remove listeners and invoke the event again while an `Invoke` is in progress. The code
    is proved to follow a simple machine that knows neither list nor counts: a log of registrations and the
    set of those removed. */
module Events {
  import opened Options
  import opened Sequences

  datatype ListenerInfo = ListenerInfo(id: nat, listener: nat)

  /** What a listener does when it is called. An `Invoke` carries what the listeners it calls do in turn;
      once that is used up they do nothing, so that every `Invoke` that finishes is described by some script. */
  datatype Action =
    | Add(listener: nat, id: nat)
    | Remove(id: nat)
    | RemoveAll
    | InvokeAgain(script: Script)

  /** What the first listener called does, then what the second one called does, and so on. */
  datatype Script = Nothing | React(actions: seq<Action>, others: Script)

  /** The simple machine: all registrations ever made, numbered in order, and those removed since. */
  datatype Registry = Registry(infos: seq<ListenerInfo>, removed: set<nat>) {
    ghost predicate WellFormed() {
      forall n :: n in removed ==> n < |infos|
    }
    ghost predicate Live(n: nat) {
      n < |infos| && n !in removed
    }
  }

  /** One call an `Invoke` makes: to which registration, and all registrations as the listener was called and as it
      returned. */
  datatype Call = Call(number: nat, before: Registry, after: Registry)

  datatype Outcome = Outcome(registry: Registry, calls: seq<Call>, called: seq<nat>)

  ghost function Registered(r: Registry, info: ListenerInfo): Registry {
    r.(infos := r.infos + [info])
  }

  ghost function Under(r: Registry, id: nat): set<nat> {
    set n | 0 <= n < |r.infos| && r.infos[n].id == id
  }

  ghost function RemovedUnder(r: Registry, id: nat): Registry {
    r.(removed := r.removed + Under(r, id))
  }

  ghost function Below(n: nat): (s: set<nat>)
    ensures forall k: nat :: k in s <==> k < n
  {
    if n == 0 then {} else Below(n - 1) + {n - 1}
  }

  ghost function AllRemoved(r: Registry): Registry {
    r.(removed := r.removed + Below(|r.infos|))
  }

  ghost function Acted(r: Registry, action: Action): Registry
    decreases action
  {
    match action
    case Add(listener, id) => Registered(r, ListenerInfo(id, listener))
    case Remove(id) => RemovedUnder(r, id)
    case RemoveAll => AllRemoved(r)
    case InvokeAgain(script) => InvokeFrom(r, script, 0).registry
  }

  ghost function ActedAll(r: Registry, actions: seq<Action>): Registry
    decreases actions
  {
    if actions == [] then r else ActedAll(Acted(r, actions[0]), actions[1..])
  }

  ghost function Respond(r: Registry, script: Script): Registry
    decreases script, 0
  {
    if script.Nothing? then r else ActedAll(r, script.actions)
  }

  function Rest(script: Script): Script {
    if script.Nothing? then script else script.others
  }

  ghost function Called(n: nat, r: Registry, after: Registry, later: Outcome): Outcome
    requires n < |r.infos|
  {
    Outcome(later.registry, [Call(n, r, after)] + later.calls, [r.infos[n].listener] + later.called)
  }

  /** `Invoke` on the simple machine: a loop over registration numbers that skips the removed ones. */
  ghost function InvokeFrom(r: Registry, script: Script, from: nat): Outcome
    decreases script, if from < |r.infos| then |r.infos| - from else 0, 1
  {
    if from >= |r.infos| then Outcome(r, [], [])
    else if from in r.removed then InvokeFrom(r, script, from + 1)
    else
      Called(from, r, Respond(r, script), InvokeFrom(Respond(r, script), Rest(script), from + 1))
  }

  /** Registrations are only ever added and removals only ever made. */
  ghost predicate Grows(r: Registry, after: Registry) {
    && r.infos <= after.infos
    && r.removed <= after.removed
    && (r.WellFormed() ==> after.WellFormed())
  }

  lemma {:induction false} ActedGrows(r: Registry, action: Action)
    ensures Grows(r, Acted(r, action))
    decreases action
  {
    match action
    case InvokeAgain(script) => InvokeGrows(r, script, 0);
    case Add(_, _) =>
    case Remove(id) => assert forall n :: n in Under(r, id) ==> n < |r.infos|;
    case RemoveAll =>
  }

  lemma {:induction false} ActedAllGrows(r: Registry, actions: seq<Action>)
    ensures Grows(r, ActedAll(r, actions))
    decreases actions
  {
    if actions != [] {
      ActedGrows(r, actions[0]);
      ActedAllGrows(Acted(r, actions[0]), actions[1..]);
    }
  }

  lemma {:induction false} InvokeGrows(r: Registry, script: Script, from: nat)
    ensures Grows(r, InvokeFrom(r, script, from).registry)
    decreases script, if from < |r.infos| then |r.infos| - from else 0
  {
    if from < |r.infos| {
      if from in r.removed {
        InvokeGrows(r, script, from + 1);
      } else {
        if script.React? { ActedAllGrows(r, script.actions); }
        InvokeGrows(Respond(r, script), Rest(script), from + 1);
      }
    }
  }

  /** Every call goes to a registration not removed by then, with its own listener. */
  ghost predicate ProperCall(o: Outcome, k: nat)
    requires k < |o.calls| == |o.called|
  {
    var c := o.calls[k];
    c.number < |o.registry.infos| && c.number !in c.before.removed &&
    o.called[k] == o.registry.infos[c.number].listener
  }

  /** Later calls go to later registrations, and find removed what earlier ones found removed. */
  ghost predicate InSequence(calls: seq<Call>, j: nat, k: nat) {
    j < k < |calls| ==> calls[j].number < calls[k].number && calls[j].before.removed <= calls[k].before.removed
  }

  /** An `Invoke` calls in the order of registration, so listeners added meanwhile come after all older ones and
      nobody is called twice; it never calls one removed before its turn. */
  lemma {:induction false} InvokeInOrder(r: Registry, script: Script, from: nat)
    ensures var o := InvokeFrom(r, script, from); |o.calls| == |o.called|
    ensures forall k :: 0 <= k < |InvokeFrom(r, script, from).calls| ==>
              && ProperCall(InvokeFrom(r, script, from), k)
              && from <= InvokeFrom(r, script, from).calls[k].number
              && r.removed <= InvokeFrom(r, script, from).calls[k].before.removed
                   <= InvokeFrom(r, script, from).registry.removed
    ensures forall j: nat, k: nat :: InSequence(InvokeFrom(r, script, from).calls, j, k)
    decreases script, if from < |r.infos| then |r.infos| - from else 0
  {
    var o := InvokeFrom(r, script, from);
    InvokeGrows(r, script, from);
    if from < |r.infos| {
      if from in r.removed {
        InvokeInOrder(r, script, from + 1);
      } else {
        if script.React? { ActedAllGrows(r, script.actions); }
        var next := Respond(r, script);
        var later := InvokeFrom(next, Rest(script), from + 1);
        InvokeInOrder(next, Rest(script), from + 1);
        assert o == Called(from, r, next, later);
        forall k | 0 <= k < |o.calls|
          ensures ProperCall(o, k) && from <= o.calls[k].number
          ensures r.removed <= o.calls[k].before.removed <= o.registry.removed
        {
          if k > 0 { assert ProperCall(later, k - 1); }
        }
        SequencePrepended(o.calls[0], later.calls);
      }
    }
  }

  lemma SequencePrepended(c: Call, later: seq<Call>)
    requires forall j: nat, k: nat :: InSequence(later, j, k)
    requires forall k :: 0 <= k < |later| ==> c.number < later[k].number && c.before.removed <= later[k].before.removed
    ensures forall j: nat, k: nat :: InSequence([c] + later, j, k)
  {
    forall j: nat, k: nat ensures InSequence([c] + later, j, k) {
      if 0 < j < k { assert InSequence(later, j - 1, k - 1); }
    }
  }

  /** What is removed by the time it is the turn of registration `n`. */
  ghost function RemovedByTurn(calls: seq<Call>, finally: set<nat>, n: nat): set<nat> {
    if calls == [] then finally
    else if n <= calls[0].number then calls[0].before.removed
    else RemovedByTurn(calls[1..], finally, n)
  }

  ghost predicate Calls(calls: seq<Call>, n: nat) {
    exists k :: 0 <= k < |calls| && calls[k].number == n
  }

  /** An `Invoke` that finishes calls exactly those that are not removed before their turn, whether they were
      registered before it began or while it ran. */
  lemma {:induction false} InvokeCallsExactly(r: Registry, script: Script, from: nat, n: nat)
    requires from <= n < |InvokeFrom(r, script, from).registry.infos|
    ensures var o := InvokeFrom(r, script, from);
            Calls(o.calls, n) <==> n !in RemovedByTurn(o.calls, o.registry.removed, n)
    decreases script, if from < |r.infos| then |r.infos| - from else 0
  {
    var o := InvokeFrom(r, script, from);
    if from < |r.infos| {
      if from in r.removed {
        InvokeInOrder(r, script, from + 1);
        if n > from {
          InvokeCallsExactly(r, script, from + 1, n);
        } else {
          InvokeGrows(r, script, from + 1);
          assert o == InvokeFrom(r, script, from + 1);
          assert o.calls != [] ==> ProperCall(o, 0);
        }
      } else {
        var later := InvokeFrom(Respond(r, script), Rest(script), from + 1);
        assert o == Called(from, r, Respond(r, script), later) && o.calls[1..] == later.calls;
        if n > from {
          InvokeCallsExactly(Respond(r, script), Rest(script), from + 1, n);
          forall k | 0 <= k < |later.calls| ensures o.calls[k + 1] == later.calls[k] {}
        } else {
          assert o.calls[0].number == n;
        }
      }
    }
  }

  // ----- an `Invoke` seen from outside -----

  /** What an action of a listener does to the registrations: adding appends one record, removing takes away the live
      ones under the identifier, and an inner `Invoke` is an invocation from here to there. */
  ghost predicate Effect(r: Registry, action: Action, after: Registry)
    decreases action
  {
    match action
    case Add(listener, id) => after.infos == r.infos + [ListenerInfo(id, listener)] && after.removed == r.removed
    case Remove(id) => after.infos == r.infos &&
      forall n: nat :: after.Live(n) <==> r.Live(n) && r.infos[n].id != id
    case RemoveAll => after.infos == r.infos && forall n: nat :: !after.Live(n)
    case InvokeAgain(script) => exists calls, called :: Invocation(r, script, 0, calls, called, after)
  }

  ghost predicate Effects(r: Registry, actions: seq<Action>, after: Registry)
    decreases actions
  {
    if actions == [] then after == r
    else exists next :: Effect(r, actions[0], next) && Effects(next, actions[1..], after)
  }

  /** What the next listener does, which is nothing once the script is used up. */
  ghost predicate Reaction(r: Registry, script: Script, after: Registry)
    decreases script, 0
  {
    if script.React? then Effects(r, script.actions, after) else after == r
  }

  /** Each listener called does what the script says it does. */
  ghost predicate Reacted(script: Script, calls: seq<Call>)
    decreases script, |calls|
  {
    calls != [] ==>
      Reaction(calls[0].before, script, calls[0].after) && Reacted(Rest(script), calls[1..])
  }

  /** Nothing changes between the return of one listener and the call of the next. */
  ghost predicate Unchanged(calls: seq<Call>, k: nat) {
    k + 1 < |calls| ==> calls[k].after == calls[k + 1].before
  }

  /** How far the loop has come when it makes call k. */
  ghost function Reached(calls: seq<Call>, from: nat, k: nat): nat
    requires k <= |calls|
  {
    if k == 0 then from else calls[k - 1].number + 1
  }

  /** Call k goes to the first live registration the loop has not passed. */
  ghost predicate FirstLive(calls: seq<Call>, called: seq<nat>, from: nat, k: nat)
    requires k < |calls| == |called|
  {
    var c := calls[k];
    && Reached(calls, from, k) <= c.number && c.before.Live(c.number)
    && called[k] == c.before.infos[c.number].listener
    && forall n: nat :: Reached(calls, from, k) <= n < c.number ==> !c.before.Live(n)
  }

  /** An `Invoke` from registration `from` on: the calls follow upon one another from the first registry to the last,
      each goes to the next live registration, only what the listeners do changes anything, and no live registration
      is left at the end. */
  ghost predicate Invocation(r: Registry, script: Script, from: nat, calls: seq<Call>, called: seq<nat>,
                             after: Registry)
    decreases script, |calls| + 1
  {
    && |calls| == |called|
    && (if calls == [] then after == r else calls[0].before == r && calls[|calls| - 1].after == after)
    && (forall k: nat :: Unchanged(calls, k))
    && (forall k :: 0 <= k < |calls| ==> FirstLive(calls, called, from, k))
    && (forall n: nat :: Reached(calls, from, |calls|) <= n ==> !after.Live(n))
    && Reacted(script, calls)
  }

  lemma {:induction false} ActedEffect(r: Registry, action: Action)
    requires r.WellFormed()
    ensures Effect(r, action, Acted(r, action))
    decreases action
  {
    match action
    case InvokeAgain(script) =>
      InvokeInvocation(r, script, 0);
      var o := InvokeFrom(r, script, 0);
      assert Invocation(r, script, 0, o.calls, o.called, o.registry);
    case Add(_, _) =>
    case Remove(id) =>
    case RemoveAll =>
  }

  lemma {:induction false} ActedEffects(r: Registry, actions: seq<Action>)
    requires r.WellFormed()
    ensures Effects(r, actions, ActedAll(r, actions))
    decreases actions
  {
    if actions != [] {
      ActedEffect(r, actions[0]);
      ActedGrows(r, actions[0]);
      ActedEffects(Acted(r, actions[0]), actions[1..]);
    }
  }

  /** A call more in front. */
  lemma InvocationCall(r: Registry, script: Script, n: nat, next: Registry, later: Outcome)
    requires r.Live(n) && Reaction(r, script, next)
    requires Invocation(next, Rest(script), n + 1, later.calls, later.called, later.registry)
    ensures var o := Called(n, r, next, later); Invocation(r, script, n, o.calls, o.called, o.registry)
  {
    var o := Called(n, r, next, later);
    assert o.calls[1..] == later.calls;
    forall k: nat ensures Unchanged(o.calls, k) {
      if 0 < k { assert Unchanged(later.calls, k - 1); }
    }
    forall k | 0 <= k < |o.calls| ensures FirstLive(o.calls, o.called, n, k) {
      if 0 < k {
        assert FirstLive(later.calls, later.called, n + 1, k - 1);
        assert Reached(o.calls, n, k) == Reached(later.calls, n + 1, k - 1);
      }
    }
  }

  /** A removed registration more in front. */
  lemma InvocationSkip(r: Registry, script: Script, n: nat, o: Outcome)
    requires !r.Live(n) && Invocation(r, script, n + 1, o.calls, o.called, o.registry)
    ensures Invocation(r, script, n, o.calls, o.called, o.registry)
  {
    forall k | 0 <= k < |o.calls| ensures FirstLive(o.calls, o.called, n, k) {
      assert FirstLive(o.calls, o.called, n + 1, k);
    }
  }

  /** The machine's `Invoke` is such an invocation. */
  lemma {:induction false} InvokeInvocation(r: Registry, script: Script, from: nat)
    requires r.WellFormed()
    ensures var o := InvokeFrom(r, script, from); Invocation(r, script, from, o.calls, o.called, o.registry)
    decreases script, if from < |r.infos| then |r.infos| - from else 0
  {
    if from < |r.infos| {
      if from in r.removed {
        InvokeInvocation(r, script, from + 1);
        InvocationSkip(r, script, from, InvokeFrom(r, script, from + 1));
      } else {
        var next := Respond(r, script);
        if script.React? {
          ActedEffects(r, script.actions);
          ActedAllGrows(r, script.actions);
        }
        InvokeInvocation(next, Rest(script), from + 1);
        InvocationCall(r, script, from, next, InvokeFrom(next, Rest(script), from + 1));
      }
    }
  }

  /** The listeners of the live registrations from `from` on, in order. */
  ghost function LiveListeners(r: Registry, from: nat): seq<nat>
    decreases if from < |r.infos| then |r.infos| - from else 0
  {
    if from >= |r.infos| then []
    else (if r.Live(from) then [r.infos[from].listener] else []) + LiveListeners(r, from + 1)
  }

  /** The first call goes to the first live registration, and there is none if none is live. */
  lemma InvocationHead(r: Registry, from: nat, calls: seq<Call>, called: seq<nat>, after: Registry)
    requires Invocation(r, Nothing, from, calls, called, after)
    ensures calls == [] ==> after == r && forall n: nat :: from <= n ==> !r.Live(n)
    ensures calls != [] ==> calls[0].after == r && from <= calls[0].number && r.Live(calls[0].number)
    ensures calls != [] ==> called[0] == r.infos[calls[0].number].listener
    ensures calls != [] ==> forall n: nat :: from <= n < calls[0].number ==> !r.Live(n)
  {
    if calls != [] {
      assert FirstLive(calls, called, from, 0);
      assert Reaction(calls[0].before, Nothing, calls[0].after);
    }
  }

  lemma InvocationTail(r: Registry, from: nat, calls: seq<Call>, called: seq<nat>, after: Registry)
    requires Invocation(r, Nothing, from, calls, called, after)
    requires calls != [] && calls[0].number == from && calls[0].after == r
    ensures Invocation(r, Nothing, from + 1, calls[1..], called[1..], after)
  {
    assert Unchanged(calls, 0);
    forall k: nat ensures Unchanged(calls[1..], k) {
      assert Unchanged(calls, k + 1);
    }
    var next := from + 1;
    forall k | 0 <= k < |calls| - 1 ensures FirstLive(calls[1..], called[1..], next, k) {
      assert FirstLive(calls, called, from, k + 1);
    }
  }

  /** Where no listener does anything, all live ones are called and nothing changes. */
  lemma {:induction false} NothingCallsAll(r: Registry, from: nat, calls: seq<Call>, called: seq<nat>, after: Registry)
    requires Invocation(r, Nothing, from, calls, called, after)
    ensures called == LiveListeners(r, from) && after == r
    decreases |calls|, if from < |r.infos| then |r.infos| - from else 0
  {
    InvocationHead(r, from, calls, called, after);
    if from < |r.infos| && !r.Live(from) {
      var next := from + 1;
      forall k | 0 <= k < |calls| ensures FirstLive(calls, called, next, k) {
        assert FirstLive(calls, called, from, k);
      }
      NothingCallsAll(r, next, calls, called, after);
    } else if from < |r.infos| {
      InvocationTail(r, from, calls, called, after);
      NothingCallsAll(r, from + 1, calls[1..], called[1..], after);
    }
  }

  lemma InvokeSpelled(r: Registry, script: Script)
    requires r.WellFormed()
    ensures var o := InvokeFrom(r, script, 0);
      Invocation(r, script, 0, o.calls, o.called, o.registry) &&
      (script.Nothing? ==> o.called == LiveListeners(r, 0) && o.registry == r)
  {
    var o := InvokeFrom(r, script, 0);
    InvokeInvocation(r, script, 0);
    if script.Nothing? { NothingCallsAll(r, 0, o.calls, o.called, o.registry); }
  }

  lemma {:induction false} SkipRemoved(r: Registry, script: Script, from: nat, to: nat)
    requires from <= to <= |r.infos|
    requires forall n :: from <= n < to ==> n in r.removed
    ensures InvokeFrom(r, script, from) == InvokeFrom(r, script, to)
    decreases |r.infos| - from
  {
    if from < to { SkipRemoved(r, script, from + 1, to); }
  }

  lemma {:induction false} ActedAllAppend(r: Registry, actions: seq<Action>, k: nat)
    requires k < |actions|
    ensures ActedAll(r, actions[..k + 1]) == Acted(ActedAll(r, actions[..k]), actions[k])
    decreases k
  {
    if k == 0 {
      assert actions[..1][1..] == [] && actions[..0] == [];
      assert actions[..1][0] == actions[0];
      assert ActedAll(Acted(r, actions[0]), actions[..1][1..]) == Acted(r, actions[0]);
    } else {
      assert actions[..k + 1][1..] == actions[1..][..k];
      assert actions[..k][1..] == actions[1..][..k - 1];
      ActedAllAppend(Acted(r, actions[0]), actions[1..], k - 1);
    }
  }

  /** `ListSafeNode<ListenerInfo>`: linked and alive as long as its reference count is positive. */
  class ListenerNode {
    var data: Option<ListenerInfo>
    var refCount: int
    ghost const number: nat

    constructor (info: ListenerInfo, ghost number: nat)
      ensures data == Some(info) && refCount == 1 && this.number == number
    {
      data, refCount := Some(info), 1;
      this.number := number;
    }

    method IncrRef()
      modifies this`refCount
      ensures refCount == old(refCount) + 1
    {
      refCount := refCount + 1;
    }

    /** True when the last reference is gone: the node then deletes itself, which unlinks it. */
    method DecrRef() returns (dead: bool)
      requires refCount > 0
      modifies this`refCount
      ensures refCount == old(refCount) - 1 && dead == (refCount == 0)
    {
      refCount := refCount - 1;
      dead := refCount == 0;
    }

    /** Gives up the data and the reference that goes with it; nothing when the data is gone already. */
    method Detach() returns (dead: bool)
      requires data.Some? ==> refCount > 0
      modifies this
      ensures data == None
      ensures refCount == old(refCount) - (if old(data).Some? then 1 else 0)
      ensures dead == (old(data).Some? && refCount == 0)
    {
      dead := false;
      if data.Some? {
        data := None;
        dead := DecrRef();
      }
    }
  }

  ghost predicate InOrder(list: seq<ListenerNode>, i: nat, j: nat) {
    i < j < |list| ==> list[i].number < list[j].number
  }

  ghost predicate Increasing(list: seq<ListenerNode>) {
    forall i: nat, j: nat :: InOrder(list, i, j)
  }

  lemma IncreasingTail(list: seq<ListenerNode>)
    requires Increasing(list) && list != []
    ensures Increasing(list[1..])
    ensures forall x :: x in list[1..] ==> list[0].number < x.number
    ensures forall x :: x in list <==> x == list[0] || x in list[1..]
  {
    var tail := list[1..];
    forall i: nat, j: nat ensures InOrder(tail, i, j) {
      assert InOrder(list, i + 1, j + 1);
    }
    forall x | x in tail ensures list[0].number < x.number {
      var k :| 0 <= k < |tail| && tail[k] == x;
      assert InOrder(list, 0, k + 1);
    }
    assert list == [list[0]] + tail;
  }

  lemma IncreasingPrepended(n: ListenerNode, list: seq<ListenerNode>)
    requires Increasing(list) && forall x :: x in list ==> n.number < x.number
    ensures Increasing([n] + list)
  {
    var both := [n] + list;
    forall i: nat, j: nat ensures InOrder(both, i, j) {
      if i < j < |both| {
        assert both[j] == list[j - 1] && list[j - 1] in list;
        if i > 0 { assert InOrder(list, i - 1, j - 1); }
      }
    }
  }

  lemma IncreasingAppended(list: seq<ListenerNode>, n: ListenerNode)
    requires Increasing(list) && forall x :: x in list ==> x.number < n.number
    ensures Increasing(list + [n])
  {
    var both := list + [n];
    forall i: nat, j: nat ensures InOrder(both, i, j) {
      if i < j < |both| {
        assert both[i] == list[i] && list[i] in list;
        assert InOrder(list, i, j);
      }
    }
  }

  lemma {:induction false} WithoutMembers(list: seq<ListenerNode>, n: ListenerNode)
    requires Increasing(list)
    ensures forall x :: x in Without(list, n) ==> x in list && x != n
    ensures forall x :: x in list && x != n ==> x in Without(list, n)
    ensures Increasing(Without(list, n))
  {
    if list != [] {
      IncreasingTail(list);
      WithoutMembers(list[1..], n);
      if list[0] != n {
        var tail, rest := list[1..], Without(list[1..], n);
        forall x | x in rest ensures list[0].number < x.number {
          assert x in Without(tail, n);
          assert x in tail;
        }
        IncreasingPrepended(list[0], rest);
      }
    }
  }

  function Next(list: seq<ListenerNode>, n: ListenerNode): ListenerNode? {
    match After(list, n)
    case None => null
    case Some(next) => next
  }

  ghost function Position(node: ListenerNode?, end: nat): nat {
    if node == null then end else node.number
  }

  /** `node` is the first of the list numbered `from` or later. */
  ghost predicate FirstFrom(list: seq<ListenerNode>, node: ListenerNode?, from: nat) {
    && (node != null ==> node in list && from <= node.number)
    && (forall x :: x in list && from <= x.number ==> node != null && node.number <= x.number)
  }

  lemma FirstOfAll(list: seq<ListenerNode>)
    requires Increasing(list)
    ensures FirstFrom(list, if list == [] then null else list[0], 0)
  {
    if list != [] { IncreasingTail(list); }
  }

  lemma {:induction false} NextIsFirst(list: seq<ListenerNode>, n: ListenerNode)
    requires Increasing(list) && n in list
    ensures FirstFrom(list, Next(list, n), n.number + 1)
  {
    IncreasingTail(list);
    if list[0] == n {
      if |list| > 1 {
        IncreasingTail(list[1..]);
        assert list[1] == list[1..][0] && list[1] in list[1..];
      }
    } else {
      NextIsFirst(list[1..], n);
    }
  }

  /** The loops in progress, innermost first, and the nodes they stand on. */
  datatype Cursors = Bottom | Cursor(number: nat, outer: Cursors)

  ghost function Pins(frames: Cursors, n: nat): nat {
    match frames
    case Bottom => 0
    case Cursor(m, outer) => (if m == n then 1 else 0) + Pins(outer, n)
  }

  /** What lists and counts owe to the simple machine. */
  ghost predicate Registers(list: seq<ListenerNode>, history: seq<ListenerNode>, registry: Registry, frames: Cursors) {
    && registry.WellFormed()
    && |history| == |registry.infos|
    && (forall i :: 0 <= i < |history| ==> history[i].number == i)
    && (forall i :: |history| <= i ==> Pins(frames, i) == 0)
    && Increasing(list)
    && (forall n :: n in list ==> n.number < |history| && history[n.number] == n)
    && (forall i :: 0 <= i < |history| ==> (history[i] in list <==> i !in registry.removed || Pins(frames, i) > 0))
  }

  ghost predicate IndexEntry(n: ListenerNode, id: nat, history: seq<ListenerNode>, registry: Registry)
    requires |history| == |registry.infos|
  {
    registry.Live(n.number) && history[n.number] == n && registry.infos[n.number].id == id
  }

  ghost predicate Indexes(index: map<nat, seq<ListenerNode>>, history: seq<ListenerNode>, registry: Registry)
    requires |history| == |registry.infos|
  {
    && (forall id :: Increasing(Entries(index, id)))
    && (forall id, n :: n in Entries(index, id) ==> IndexEntry(n, id, history, registry))
    && (forall i :: 0 <= i < |history| && i !in registry.removed ==> history[i] in Entries(index, registry.infos[i].id))
  }

  /** The nodes that the index holds under an identifier. */
  function Entries(index: map<nat, seq<ListenerNode>>, id: nat): seq<ListenerNode> {
    if id in index then index[id] else []
  }

  lemma AddRegisters(list: seq<ListenerNode>, history: seq<ListenerNode>, r: Registry, frames: Cursors,
                     node: ListenerNode, info: ListenerInfo)
    requires Registers(list, history, r, frames) && node.number == |history|
    ensures Registers(list + [node], history + [node], Registered(r, info), frames)
  {
    IncreasingAppended(list, node);
  }

  lemma AddIndexes(index: map<nat, seq<ListenerNode>>, after: map<nat, seq<ListenerNode>>, history: seq<ListenerNode>,
                   r: Registry, node: ListenerNode, info: ListenerInfo)
    requires |history| == |r.infos| && Indexes(index, history, r) && r.WellFormed() && node.number == |history|
    requires after == index[info.id := Entries(index, info.id) + [node]]
    ensures Indexes(after, history + [node], Registered(r, info))
  {
    forall x: ListenerNode | x in Entries(index, info.id) ensures x.number < node.number {
      assert IndexEntry(x, info.id, history, r);
    }
    IncreasingAppended(Entries(index, info.id), node);
    var all, left := history + [node], Registered(r, info);
    forall k ensures Increasing(Entries(after, k)) {
      assert k != info.id ==> Entries(after, k) == Entries(index, k);
    }
    forall k, x: ListenerNode | x in Entries(after, k) ensures IndexEntry(x, k, all, left) {
      if k != info.id || x != node {
        assert x in Entries(index, k) && IndexEntry(x, k, history, r);
      }
    }
    forall i | 0 <= i < |all| && i !in left.removed ensures all[i] in Entries(after, left.infos[i].id) {
      assert i < |history| ==> history[i] in Entries(index, r.infos[i].id);
    }
  }

  lemma SkipToListed(list: seq<ListenerNode>, history: seq<ListenerNode>, r: Registry, frames: Cursors,
                     script: Script, node: ListenerNode?, from: nat)
    requires Registers(list, history, r, frames) && FirstFrom(list, node, from) && from <= |history|
    ensures from <= Position(node, |history|) <= |history|
    ensures InvokeFrom(r, script, from) == InvokeFrom(r, script, Position(node, |history|))
  {
    forall i | from <= i < Position(node, |history|) ensures i in r.removed {
      assert history[i].number == i;
    }
    SkipRemoved(r, script, from, Position(node, |history|));
  }

  /** What a turn of the loop does to the registry and the script, and whom it calls. */
  ghost predicate TurnTaken(r: Registry, script: Script, n: nat, after: Registry, rest: Script, called: seq<nat>)
    requires n < |r.infos|
  {
    if n in r.removed then after == r && rest == script && called == []
    else after == Respond(r, script) && rest == Rest(script) && called == [r.infos[n].listener]
  }

  lemma LeftAfter(r: Registry, script: Script, n: nat, after: Registry, rest: Script, called: seq<nat>, left: Outcome)
    requires n < |r.infos| && TurnTaken(r, script, n, after, rest, called) && left == InvokeFrom(after, rest, n + 1)
    ensures left.registry == InvokeFrom(r, script, n).registry
    ensures called + left.called == InvokeFrom(r, script, n).called
  {
    if n in r.removed {
      assert InvokeFrom(r, script, n) == InvokeFrom(r, script, n + 1);
    } else {
      assert InvokeFrom(r, script, n) == Called(n, r, after, left);
    }
  }

  /** What is to come before a turn at `n` is what the turn calls and what is to come after it. */
  ghost predicate Moves(r: Registry, script: Script, n: nat, after: Registry, rest: Script, m: nat, called: seq<nat>) {
    && InvokeFrom(after, rest, m).registry == InvokeFrom(r, script, n).registry
    && called + InvokeFrom(after, rest, m).called == InvokeFrom(r, script, n).called
  }

  lemma TurnMoves(list: seq<ListenerNode>, history: seq<ListenerNode>, after: Registry, frames: Cursors,
                  next: ListenerNode?, r: Registry, n: nat, script: Script, rest: Script, called: seq<nat>)
    requires Registers(list, history, after, frames) && n < |r.infos| && n < |history|
    requires FirstFrom(list, next, n + 1)
    requires TurnTaken(r, script, n, after, rest, called)
    ensures n < Position(next, |history|) <= |history|
    ensures Moves(r, script, n, after, rest, Position(next, |history|), called)
  {
    SkipToListed(list, history, after, frames, rest, next, n + 1);
    LeftAfter(r, script, n, after, rest, called, InvokeFrom(after, rest, n + 1));
  }

  ghost function Gone(r: Registry, n: nat): Registry {
    r.(removed := r.removed + {n})
  }

  /** The list after `n` lost a reference: without it when that was the last one. */
  ghost function Released(list: seq<ListenerNode>, r: Registry, frames: Cursors, n: ListenerNode): seq<ListenerNode> {
    if n.number in r.removed && Pins(frames, n.number) == 0 then Without(list, n) else list
  }

  lemma GoneRegisters(list: seq<ListenerNode>, history: seq<ListenerNode>, r: Registry, frames: Cursors,
                      n: ListenerNode)
    requires Registers(list, history, r, frames) && n in list
    ensures Registers(Released(list, Gone(r, n.number), frames, n), history, Gone(r, n.number), frames)
  {
    WithoutMembers(list, n);
  }

  lemma PinsOutside(n: nat, frames: Cursors)
    ensures forall i {:trigger Pins(frames, i)} ::
              Pins(Cursor(n, frames), i) == Pins(frames, i) + if i == n then 1 else 0
  {
  }

  lemma LeaveRegisters(list: seq<ListenerNode>, history: seq<ListenerNode>, r: Registry, frames: Cursors,
                       n: ListenerNode)
    requires Registers(list, history, r, Cursor(n.number, frames)) && n in list
    ensures Registers(Released(list, r, frames, n), history, r, frames)
  {
    PinsOutside(n.number, frames);
    WithoutMembers(list, n);
  }

  lemma GoneIndexes(index: map<nat, seq<ListenerNode>>, after: map<nat, seq<ListenerNode>>, history: seq<ListenerNode>,
                    r: Registry, id: nat)
    requires |history| == |r.infos| && Indexes(index, history, r) && Entries(index, id) != []
    requires forall i :: 0 <= i < |history| ==> history[i].number == i
    requires after == index[id := index[id][1..]]
    ensures Indexes(after, history, Gone(r, index[id][0].number))
  {
    IncreasingTail(Entries(index, id));
    var n := index[id][0];
    assert n in Entries(index, id);
    forall k ensures Increasing(Entries(after, k)) {
      assert k != id ==> Entries(after, k) == Entries(index, k);
    }
    forall k, x: ListenerNode | x in Entries(after, k) ensures IndexEntry(x, k, history, Gone(r, n.number)) {
      assert x in Entries(index, k);
    }
    forall i | 0 <= i < |history| && i !in Gone(r, n.number).removed
      ensures history[i] in Entries(after, r.infos[i].id)
    {
      assert history[i] in Entries(index, r.infos[i].id);
    }
  }

  /** A node's fields say what the machine and the loops in progress make of its registration. */
  ghost predicate Fits(n: ListenerNode, r: Registry, frames: Cursors)
    requires n.number < |r.infos|
    reads n
  {
    && n.data == (if n.number in r.removed then None else Some(r.infos[n.number]))
    && n.refCount == (if n.number in r.removed then 0 else 1) + Pins(frames, n.number)
  }

  ghost predicate Numbered(history: seq<ListenerNode>, nodes: set<ListenerNode>) {
    && (forall i :: 0 <= i < |history| ==> history[i] in nodes && history[i].number == i)
    && (forall n :: n in nodes ==> n.number < |history| && history[n.number] == n)
  }

  class Event {
    var list: seq<ListenerNode>
    var index: map<nat, seq<ListenerNode>>
    ghost var registry: Registry
    ghost var history: seq<ListenerNode>
    ghost var frames: Cursors
    ghost var nodes: set<ListenerNode>

    ghost predicate Nodes()
      reads this, nodes
    {
      && Numbered(history, nodes)
      && |history| == |registry.infos|
      && forall n :: n in nodes ==> Fits(n, registry, frames)
    }

    ghost predicate Valid()
      reads this, nodes
    {
      && Registers(list, history, registry, frames)
      && Indexes(index, history, registry)
      && Nodes()
    }

    /** A node is linked exactly while it is referred to; every loop in progress stands on a linked node; and what
        has deleted itself is in neither list nor index, and no loop stands on it. */
    lemma LinkedIffCounted(n: ListenerNode)
      requires Valid() && n in nodes
      ensures n in list <==> n.refCount > 0
      ensures n.refCount == (if n.data.Some? then 1 else 0) + Pins(frames, n.number)
      ensures Pins(frames, n.number) > 0 ==> n in list && (Next(list, n) == null || Next(list, n) in list)
      ensures n.refCount == 0 ==> n.data == None && Pins(frames, n.number) == 0 && forall id :: n !in Entries(index, id)
    {
      assert history[n.number] in nodes && Fits(n, registry, frames);
      assert forall id :: n in Entries(index, id) ==> IndexEntry(n, id, history, registry);
      if n in list { NextIsFirst(list, n); }
    }

    /** With no `Invoke` in progress the list and the index hold the same nodes, those not removed. */
    lemma Settled(n: ListenerNode)
      requires Valid() && frames == Bottom && n in nodes
      ensures n in list <==> registry.Live(n.number)
      ensures n in list <==> n in Entries(index, registry.infos[n.number].id)
      ensures n in list <==> exists id :: n in Entries(index, id)
    {
      assert history[n.number] == n;
      if n in list {
        assert n in Entries(index, registry.infos[n.number].id);
      } else {
        forall id ensures n !in Entries(index, id) {
          assert n in Entries(index, id) ==> IndexEntry(n, id, history, registry);
        }
      }
    }

    constructor ()
      ensures Valid() && registry == Registry([], {}) && frames == Bottom && history == []
    {
      list, index := [], map[];
      registry, history, frames, nodes := Registry([], {}), [], Bottom, {};
    }

    /** Without an identifier the address of the new record serves as one. */
    method AddListener(listener: nat, identifier: Option<nat>, address: nat) returns (id: nat)
      requires Valid()
      modifies this`list, this`index, this`registry, this`history, this`nodes
      ensures Valid() && registry == Registered(old(registry), ListenerInfo(id, listener))
      ensures registry.infos == old(registry).infos + [ListenerInfo(id, listener)]
      ensures registry.removed == old(registry).removed
      ensures id == if identifier.Some? then identifier.value else address
      ensures frames == old(frames) && old(nodes) <= nodes && fresh(nodes - old(nodes))
    {
      id := if identifier.Some? then identifier.value else address;
      var info := ListenerInfo(id, listener);
      var node := new ListenerNode(info, |history|);
      Link(node, info);
    }

    method Link(node: ListenerNode, info: ListenerInfo)
      requires Valid() && node !in nodes
      requires node.number == |history| && node.data == Some(info) && node.refCount == 1
      modifies this`list, this`index, this`registry, this`history, this`nodes
      ensures Valid() && registry == Registered(old(registry), info)
      ensures history == old(history) + [node] && nodes == old(nodes) + {node}
    {
      AddRegisters(list, history, registry, frames, node, info);
      AddIndexes(index, index[info.id := Entries(index, info.id) + [node]], history, registry, node, info);
      assert Pins(frames, |history|) == 0 && |history| !in registry.removed;
      list := list + [node];
      index := index[info.id := Entries(index, info.id) + [node]];
      history, nodes := history + [node], nodes + {node};
      registry := Registered(registry, info);
    }

    method DropNode(n: ListenerNode)
      requires Registers(list, history, registry, frames) && Nodes() && n in list
      modifies this`list, this`registry, n
      ensures registry == Gone(old(registry), n.number)
      ensures list == Released(old(list), registry, frames, n)
      ensures Registers(list, history, registry, frames) && Nodes()
    {
      GoneRegisters(list, history, registry, frames, n);
      var dead := n.Detach();
      if dead { list := Without(list, n); }
      registry := Gone(registry, n.number);
    }

    method Enter(n: ListenerNode)
      requires Valid() && n in list
      modifies this`frames, n
      ensures Valid() && frames == Cursor(n.number, old(frames))
    {
      PinsOutside(n.number, frames);
      n.IncrRef();
      frames := Cursor(n.number, frames);
      forall m | m in nodes ensures Fits(m, registry, frames) {
        assert Fits(m, registry, old(frames)) || m == n;
      }
    }

    method Leave(n: ListenerNode, ghost outer: Cursors)
      requires Valid() && frames == Cursor(n.number, outer) && n in list
      modifies this`frames, this`list, n
      ensures Valid() && frames == outer && list == Released(old(list), registry, outer, n)
    {
      LeaveRegisters(list, history, registry, outer, n);
      var dead := LeaveNode(n, outer);
      if dead { list := Without(list, n); }
    }

    method LeaveNode(n: ListenerNode, ghost outer: Cursors) returns (dead: bool)
      requires Nodes() && frames == Cursor(n.number, outer) && n in nodes
      modifies this`frames, n
      ensures Nodes() && frames == outer && dead == (n.refCount == 0) && (dead ==> n.data == None)
    {
      PinsOutside(n.number, outer);
      dead := n.DecrRef();
      frames := outer;
    }

    method RemoveFirst(id: nat) returns (ghost n: nat)
      requires Valid() && Entries(index, id) != []
      modifies this`list, this`index, this`registry, nodes
      ensures Valid() && n in Under(old(registry), id) && n !in old(registry).removed
      ensures registry == Gone(old(registry), n)
      ensures |Entries(index, id)| == |Entries(old(index), id)| - 1
    {
      var node := index[id][0];
      assert node in Entries(index, id) && IndexEntry(node, id, history, registry);
      GoneIndexes(index, index[id := index[id][1..]], history, registry, id);
      n := node.number;
      DropNode(node);
      index := index[id := index[id][1..]];
    }

    method RemoveListener(id: nat)
      requires Valid()
      modifies this`list, this`index, this`registry, nodes
      ensures Valid() && registry == RemovedUnder(old(registry), id)
      ensures registry.infos == old(registry).infos
      ensures forall n: nat :: registry.Live(n) <==> old(registry).Live(n) && registry.infos[n].id != id
    {
      while Entries(index, id) != []
        invariant Valid() && registry.infos == old(registry).infos
        invariant old(registry).removed <= registry.removed <= old(registry).removed + Under(registry, id)
        decreases |Entries(index, id)|
      {
        ghost var n := RemoveFirst(id);
      }
      assert Under(registry, id) <= registry.removed;
    }

    method RemoveAllListener()
      requires Valid()
      modifies this`list, this`index, this`registry, nodes
      ensures Valid() && registry == AllRemoved(old(registry))
      ensures registry.infos == old(registry).infos && forall n: nat :: !registry.Live(n)
    {
      FirstOfAll(list);
      var node: ListenerNode? := if list == [] then null else list[0];
      while node != null
        invariant Registers(list, history, registry, frames) && Nodes()
        invariant registry.infos == old(registry).infos && old(registry).removed <= registry.removed
        invariant node != null ==> node in list
        invariant forall i :: 0 <= i < Position(node, |history|) ==> i in registry.removed
        decreases |history| - Position(node, |history|)
      {
        node := RemoveNext(node);
      }
      index := map[];
      assert registry.removed == AllRemoved(old(registry)).removed;
    }

    method RemoveNext(node: ListenerNode) returns (next: ListenerNode?)
      requires Registers(list, history, registry, frames) && Nodes() && node in list
      requires forall i :: 0 <= i < node.number ==> i in registry.removed
      modifies this`list, this`registry, node
      ensures Registers(list, history, registry, frames) && Nodes()
      ensures registry == Gone(old(registry), node.number)
      ensures next != null ==> next in list && next.number > node.number
      ensures forall i :: 0 <= i < Position(next, |history|) ==> i in registry.removed
    {
      NextIsFirst(list, node);
      WithoutMembers(list, node);
      next := Next(list, node);
      DropNode(node);
    }

    method Act(action: Action)
      requires Valid()
      modifies this, nodes
      ensures Valid() && registry == Acted(old(registry), action) && frames == old(frames)
      ensures old(nodes) <= nodes && fresh(nodes - old(nodes))
      decreases action
    {
      match action
      case Add(listener, id) => var _ := AddListener(listener, Some(id), 0);
      case Remove(id) => RemoveListener(id);
      case RemoveAll => RemoveAllListener();
      case InvokeAgain(script) => var _, _ := Invoke(script);
    }

    method ActAll(actions: seq<Action>)
      requires Valid()
      modifies this, nodes
      ensures Valid() && registry == ActedAll(old(registry), actions) && frames == old(frames)
      ensures old(nodes) <= nodes && fresh(nodes - old(nodes))
      decreases actions
    {
      var i := 0;
      while i < |actions|
        invariant i <= |actions| && Valid() && frames == old(frames)
        invariant registry == ActedAll(old(registry), actions[..i])
        invariant old(nodes) <= nodes && fresh(nodes - old(nodes))
      {
        ActedAllAppend(old(registry), actions, i);
        Act(actions[i]);
        i := i + 1;
      }
      assert actions[..i] == actions;
    }

    /** What one turn of the loop does to a registry and to the rest of the script. */
    method CallAt(node: ListenerNode, script: Script) returns (called: seq<nat>, next: ListenerNode?, rest: Script)
      requires Valid() && node in list
      modifies this, nodes
      ensures Valid() && frames == old(frames)
      ensures old(nodes) <= nodes && fresh(nodes - old(nodes))
      ensures next != null ==> next in list
      ensures node.number < |old(history)| && node.number < Position(next, |history|) <= |history|
      ensures Moves(old(registry), script, node.number, registry, rest, Position(next, |history|), called)
      ensures rest < script || (rest == script && |history| == |old(history)|)
      decreases script, 1
    {
      Enter(node);
      called, rest := CallListener(node, script);
      next := StepPast(node, old(frames));
      TurnMoves(list, history, registry, frames, next, old(registry), node.number, script, rest, called);
    }

    /** The call itself, while the loop holds its reference to the node. */
    method CallListener(node: ListenerNode, script: Script) returns (called: seq<nat>, rest: Script)
      requires Valid() && node in nodes
      modifies this, nodes
      ensures Valid() && frames == old(frames) && old(nodes) <= nodes && fresh(nodes - old(nodes))
      ensures TurnTaken(old(registry), script, node.number, registry, rest, called)
      ensures rest < script || (rest == script && |history| == |old(history)|)
      decreases script, 0
    {
      called, rest := [], script;
      if node.data.Some? {
        called := [node.data.value.listener];
        if script.React? {
          ActAll(script.actions);
          rest := script.others;
        }
      }
    }

    /** `node->Next()`, read before the loop's reference is given up. */
    method StepPast(node: ListenerNode, ghost outer: Cursors) returns (next: ListenerNode?)
      requires Valid() && frames == Cursor(node.number, outer) && node in nodes
      modifies this`frames, this`list, node
      ensures Valid() && frames == outer && FirstFrom(list, next, node.number + 1)
    {
      NextIsFirst(list, node);
      WithoutMembers(list, node);
      next := Next(list, node);
      Leave(node, outer);
    }

    /** What is to come on the simple machine when a loop of `Invoke` stands at `node`. */
    ghost predicate ToCome(node: ListenerNode?, script: Script, outcome: Outcome)
      reads this, nodes
    {
      && Valid()
      && (node != null ==> node in list)
      && outcome == InvokeFrom(registry, script, Position(node, |history|))
    }

    method Begin(ghost script: Script) returns (node: ListenerNode?)
      requires Valid()
      ensures ToCome(node, script, InvokeFrom(registry, script, 0))
    {
      FirstOfAll(list);
      node := if list == [] then null else list[0];
      SkipToListed(list, history, registry, frames, script, node, 0);
    }

    /** One turn of the loop moves a call from what is to come to what is done. */
    method Turn(node: ListenerNode, script: Script, called: seq<nat>, ghost toCome: Outcome)
      returns (next: ListenerNode?, rest: Script, more: seq<nat>, ghost left: Outcome)
      requires ToCome(node, script, toCome)
      modifies this, nodes
      ensures ToCome(next, rest, left) && frames == old(frames)
      ensures old(nodes) <= nodes && fresh(nodes - old(nodes))
      ensures rest < script || (rest == script && |history| == |old(history)|)
      ensures node.number < |old(history)| && node.number < Position(next, |history|) <= |history|
      ensures left.registry == toCome.registry && more + left.called == called + toCome.called
      decreases script, 2
    {
      var listeners;
      listeners, next, rest := CallAt(node, script);
      more := called + listeners;
      left := InvokeFrom(registry, rest, Position(next, |history|));
      assert more + left.called == called + (listeners + left.called);
    }

    /** `calls` is what the simple machine says it did. */
    method Invoke(script: Script) returns (called: seq<nat>, ghost calls: seq<Call>)
      requires Valid()
      modifies this, nodes
      ensures Valid() && frames == old(frames)
      ensures old(nodes) <= nodes && fresh(nodes - old(nodes))
      ensures registry == InvokeFrom(old(registry), script, 0).registry
      ensures called == InvokeFrom(old(registry), script, 0).called
      ensures Invocation(old(registry), script, 0, calls, called, registry)
      ensures script.Nothing? ==> called == LiveListeners(old(registry), 0) && registry == old(registry)
      decreases script, 3
    {
      ghost var goal := InvokeFrom(registry, script, 0);
      calls := goal.calls;
      InvokeSpelled(registry, script);
      var node := Begin(script);
      var rest := script;
      ghost var toCome := goal;
      called := [];
      while node != null
        invariant ToCome(node, rest, toCome) && frames == old(frames)
        invariant old(nodes) <= nodes && fresh(nodes - old(nodes))
        invariant rest == script || rest < script
        invariant toCome.registry == goal.registry && called + toCome.called == goal.called
        decreases rest, |history| - Position(node, |history|)
      {
        node, rest, called, toCome := Turn(node, rest, called, toCome);
      }
    }
  }
}
