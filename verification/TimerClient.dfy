/** The flat machine together with the client code that its timers call: which events an `Update` may consist of
    when every callback makes the calls that its script says, in order, and nothing else happens. */
module TimerClient {
  import opened Options
  import opened TimerFlat

  /** A call that a callback makes. */
  datatype Command = Set(cb: nat, delay: int, interval: int) | Del(id: nat)

  /** The calls of the callback `cb`, if it is the k-th to start. */
  type Script = (Option<nat>, nat) -> seq<Command>

  /** `left` are the calls that the callback in progress has still to make, `started` counts the callbacks. */
  datatype System = System(flat: Flat, left: seq<Command>, started: nat)

  /** `DelTimer` of a handle that is not live does nothing. */
  predicate NoEffect(f: Flat, c: Command) {
    c.Del? && (c.id == TIMER_ID_INVALID || !Live(f, c.id))
  }

  lemma LiveEffect(f: Flat, c: Command)
    requires c.Del? && c.id != TIMER_ID_INVALID && Live(f, c.id)
    ensures !NoEffect(f, c)
  {
  }

  /** The calls that are left from the next one on that does something. */
  function Effective(f: Flat, calls: seq<Command>): seq<Command> {
    if calls != [] && NoEffect(f, calls[0]) then Effective(f, calls[1..]) else calls
  }

  /** The event that the call of a command is. */
  predicate Answers(e: Event, c: Command) {
    match c
    case Set(cb, delay, interval) => e.Armed? && e.delay == delay && e.interval == interval && e.cb == cb
    case Del(id) => e == Deleted(id)
  }

  /** Time moves on and callbacks start between callbacks; a callback is over when its script is; and in between every
      event is the next call of the script. */
  function Step(s: System, e: Event, script: Script): Option<System> {
    var f := Apply(s.flat, e);
    if f.None? then None
    else
      match e
      case Advance => if s.left == [] then Some(System(f.value, [], s.started)) else None
      case Fired(_, cb) =>
        if s.left == [] then Some(System(f.value, Effective(f.value, script(cb, s.started)), s.started + 1)) else None
      case Returned => if s.left == [] then Some(System(f.value, [], s.started)) else None
      case _ =>
        if s.left != [] && Answers(e, s.left[0]) then Some(System(f.value, Effective(f.value, s.left[1..]), s.started))
        else None
  }

  /** The call that comes next is made. */
  lemma CallMade(f: Flat, left: seq<Command>, started: nat, e: Event, g: Flat, script: Script)
    requires left != [] && !NoEffect(f, left[0]) && Answers(e, left[0]) && Apply(f, e) == Some(g)
    ensures Step(System(f, Effective(f, left), started), e, script) ==
            Some(System(g, Effective(g, left[1..]), started))
  {
  }

  lemma CallbackStarts(f: Flat, started: nat, id: nat, cb: Option<nat>, g: Flat, script: Script)
    requires Apply(f, Fired(id, cb)) == Some(g)
    ensures Step(System(f, Effective(f, []), started), Fired(id, cb), script) ==
            Some(System(g, Effective(g, script(cb, started)), started + 1))
  {
  }

  lemma CallbackOver(f: Flat, started: nat, g: Flat, script: Script)
    requires Apply(f, Returned) == Some(g)
    ensures Step(System(f, Effective(f, []), started), Returned, script) == Some(System(g, Effective(g, []), started))
  {
  }

  function Runs(s: System, trace: seq<Event>, script: Script): Option<System>
    decreases trace
  {
    if trace == [] then Some(s)
    else
      var t := Step(s, trace[0], script);
      if t.None? then None else Runs(t.value, trace[1..], script)
  }

  lemma {:induction false} RunsAppend(s: System, a: seq<Event>, b: seq<Event>, script: Script)
    requires Runs(s, a, script).Some?
    ensures Runs(s, a + b, script) == Runs(Runs(s, a, script).value, b, script)
    decreases a
  {
    if a == [] {
      assert a + b == b;
    } else {
      assert (a + b)[1..] == a[1..] + b;
      RunsAppend(Step(s, a[0], script).value, a[1..], b, script);
    }
  }

  lemma RunsExtended(s: System, trace: seq<Event>, t: System, e: Event, u: System, script: Script)
    requires Runs(s, trace, script) == Some(t) && Step(t, e, script) == Some(u)
    ensures Runs(s, trace + [e], script) == Some(u)
  {
    RunsAppend(s, trace, [e], script);
    assert [e][1..] == [];
    assert Runs(u, [], script) == Some(u);
  }

  /** The flat machine's theorems apply to the runs of the system. */
  lemma {:induction false} RunsRun(s: System, trace: seq<Event>, script: Script)
    requires Runs(s, trace, script).Some?
    ensures Run(s.flat, trace) == Some(Runs(s, trace, script).value.flat)
    decreases trace
  {
    if trace != [] {
      RunsRun(Step(s, trace[0], script).value, trace[1..], script);
    }
  }

  predicate Deletes(calls: seq<Command>, id: nat) {
    Del(id) in calls
  }

  ghost predicate NeverDeletes(script: Script, id: nat) {
    forall cb, k :: !Deletes(script(cb, k), id)
  }

  lemma {:induction false} EffectiveCalls(f: Flat, calls: seq<Command>)
    ensures forall c :: c in Effective(f, calls) ==> c in calls
  {
    if calls != [] && NoEffect(f, calls[0]) { EffectiveCalls(f, calls[1..]); }
  }

  /** A timer that no script deletes is not deleted. */
  lemma {:induction false} ScriptKeeps(s: System, trace: seq<Event>, script: Script, id: nat)
    requires Runs(s, trace, script).Some? && NeverDeletes(script, id) && !Deletes(s.left, id)
    ensures NotDeleted(trace, id)
    decreases trace
  {
    if trace != [] {
      var e, rest, t := trace[0], trace[1..], Step(s, trace[0], script).value;
      if e.Fired? {
        EffectiveCalls(t.flat, script(e.callback, s.started));
        assert !Deletes(script(e.callback, s.started), id);
      } else if s.left != [] {
        EffectiveCalls(t.flat, s.left[1..]);
      }
      ScriptKeeps(t, rest, script, id);
      forall x | x in trace ensures x != Deleted(id) {
        assert x == e || x in rest;
      }
    }
  }

  /** The ticks before `now` at which a timer due at `due` starts when nobody deletes it. The handle of a one-shot
      timer that is over may come again once its node has been issued 2^16 times. */
  ghost predicate OnSchedule(ticks: seq<int>, due: int, interval: int, now: int, issued: nat) {
    if interval > 0 then
      exists count: nat :: ticks == Schedule(due, interval, count) && AllStarts(due, interval, count, now)
    else if due < now then ticks != [] && ticks[0] == due && (issued < GENERATIONS ==> ticks == [due])
    else ticks == []
  }

  /** Every timer that waits at the beginning of a run and that no script deletes starts exactly at its scheduled ticks
      before `now`, and with its own callback. */
  ghost predicate Punctual(f: Flat, trace: seq<Event>, script: Script, now: int) {
    forall id, due, interval, cb :: Waiting(f, id, due, interval, cb) && NeverDeletes(script, id) ==>
      && OnSchedule(FireTicks(f, trace, id), due, interval, now, Issued(trace, NodeOf(id)))
      && (interval > 0 || Issued(trace, NodeOf(id)) < GENERATIONS ==> Calls(trace, id, cb))
  }

  lemma RunsPunctual(s: System, trace: seq<Event>, script: Script)
    requires WellFormed(s.flat) && s.left == [] && Runs(s, trace, script).Some?
    requires Settled(Runs(s, trace, script).value.flat)
    ensures Punctual(s.flat, trace, script, Runs(s, trace, script).value.flat.now)
  {
    var f, now := s.flat, Runs(s, trace, script).value.flat.now;
    RunsRun(s, trace, script);
    forall id, due, interval, cb | Waiting(f, id, due, interval, cb) && NeverDeletes(script, id)
      ensures OnSchedule(FireTicks(f, trace, id), due, interval, now, Issued(trace, NodeOf(id)))
      ensures interval > 0 || Issued(trace, NodeOf(id)) < GENERATIONS ==> Calls(trace, id, cb)
    {
      ScriptKeeps(s, trace, script, id);
      TimerPunctual(f, trace, id, due, interval, cb);
    }
  }

  lemma TimerPunctual(f: Flat, trace: seq<Event>, id: nat, due: int, interval: int, cb: nat)
    requires WellFormed(f) && Run(f, trace).Some? && Settled(Run(f, trace).value)
    requires Waiting(f, id, due, interval, cb) && NotDeleted(trace, id)
    ensures OnSchedule(FireTicks(f, trace, id), due, interval, Run(f, trace).value.now, Issued(trace, NodeOf(id)))
    ensures interval > 0 || Issued(trace, NodeOf(id)) < GENERATIONS ==> Calls(trace, id, cb)
  {
    if interval > 0 {
      var count := PeriodicOnSchedule(f, trace, id, due, interval, cb);
    } else {
      FirstStart(f, trace, id, due, interval, cb);
      FireTicksFire(f, trace, id);
      assert FireTicks(f, trace, id) != [] ==> due in FireTicks(f, trace, id);
      if Issued(trace, NodeOf(id)) < GENERATIONS {
        GenerationStep(id, 0);
        NotReissuedSoon(f, trace, id, 0);
        OneShotOnSchedule(f, trace, id, due, interval, cb);
      }
    }
  }

  /** Calls are only left while a callback runs. */
  lemma {:induction false} LeftRunning(s: System, trace: seq<Event>, script: Script)
    requires Runs(s, trace, script).Some? && (s.left != [] ==> s.flat.running.Running?)
    ensures var t := Runs(s, trace, script).value; t.left != [] ==> t.flat.running.Running?
    decreases trace
  {
    if trace != [] {
      LeftRunning(Step(s, trace[0], script).value, trace[1..], script);
    }
  }

  lemma {:induction false} RunsPrefix(s: System, a: seq<Event>, b: seq<Event>, script: Script)
    requires Runs(s, a + b, script).Some?
    ensures Runs(s, a, script).Some?
    decreases a
  {
    if a != [] {
      assert (a + b)[1..] == a[1..] + b;
      RunsPrefix(Step(s, a[0], script).value, a[1..], b, script);
    }
  }

  /** Only a callback sets timers in the course of a run. */
  lemma SetWhileRunning(s: System, before: seq<Event>, e: Event, after: seq<Event>, script: Script) returns (f: Flat)
    requires s.left == [] && e.Armed? && Runs(s, before + ([e] + after), script).Some?
    ensures Run(s.flat, before) == Some(f) && f.running.Running?
  {
    RunsPrefix(s, before, [e] + after, script);
    RunsAppend(s, before, [e] + after, script);
    RunsRun(s, before, script);
    LeftRunning(s, before, script);
    f := Runs(s, before, script).value.flat;
  }

  /** So does every timer that a callback sets, except in the node of the timer whose callback it is. */
  lemma SetDuringRun(s: System, before: seq<Event>, id: nat, delay: int, interval: int, cb: nat, after: seq<Event>,
                     script: Script) returns (f: Flat, count: nat)
    requires WellFormed(s.flat) && s.left == []
    requires Runs(s, before + [Armed(id, delay, interval, cb)] + after, script).Some?
    requires Settled(Runs(s, before + [Armed(id, delay, interval, cb)] + after, script).value.flat)
    requires NeverDeletes(script, id) && (interval > 0 || Issued(after, NodeOf(id)) < GENERATIONS)
    ensures Run(s.flat, before) == Some(f) && f.running.Running?
    ensures f.running.node != NodeOf(id) ==>
      && FireTicks(f, [Armed(id, delay, interval, cb)] + after, id) ==
         Schedule(Max(f.now, f.now + delay - 1), interval, count)
      && AllStarts(Max(f.now, f.now + delay - 1), interval, count,
                   Runs(s, before + [Armed(id, delay, interval, cb)] + after, script).value.flat.now)
      && Calls(after, id, cb)
  {
    var e := Armed(id, delay, interval, cb);
    var rest := [e] + after;
    assert before + [e] + after == before + rest;
    f := SetWhileRunning(s, before, e, after, script);
    RunsRun(s, before + rest, script);
    RunAppend(s.flat, before, rest);
    RunWellFormed(s.flat, before);
    ScriptKeeps(s, before + rest, script, id);
    assert rest[0] == e && rest[1..] == after;
    forall x | x in after ensures x != Deleted(id) { assert x in before + rest; }
    count := 0;
    if f.running.node != NodeOf(id) {
      var g := Apply(f, e).value;
      WellFormedKept(f, e);
      GenerationStep(id, 0);
      if interval <= 0 { NotReissuedSoon(g, after, id, 0); }
      count := SetTimerRuns(f, id, delay, interval, cb, after);
    }
  }

  lemma {:induction false} RunWellFormed(f: Flat, trace: seq<Event>)
    requires WellFormed(f) && Run(f, trace).Some?
    ensures WellFormed(Run(f, trace).value)
    decreases trace
  {
    if trace != [] {
      WellFormedKept(f, trace[0]);
      RunWellFormed(Apply(f, trace[0]).value, trace[1..]);
    }
  }
}
